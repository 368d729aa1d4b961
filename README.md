# Auth: review-site back end, modelled in Dafny

The repository is an ASP.NET Core back end for a review site, with four controllers:
- `AccountsController`: registration, login, account settings, password reset and Facebook/Google login, backed by ASP.NET Identity's `UserManager`.
- `ReviewController`: reviews, each with the author's nickname and the number of likes.
- `LikeController` and `RatingController`: at most one like or rating per user and review.

Each new review gets a short random link from `LinkGeneratorFeature.GenerateLink`.

The model has two parts, one per file group.

**Link generator** (`link_generator.dfy`). This part is imperative, like the source: a method builds the link step by step, with loop invariants. `System.Random` becomes a finite sequence of draws, read in the order the C# code calls `rand.Next(0, n)`:
- each required character uses one index draw, then one character draw;
- each loop pass uses a class draw, an index draw and a character draw.

A draw `d` against the bound `n` gives `Next(d, n)`: 0 when `n` is 0, otherwise `d % n`. The generator returns `None` only when the draws run out. This bounds the loop, which in C# runs for as long as its thresholds are unmet.

**Controllers** (the other files). They run against in-memory tables:
- the Identity user table and external-login table (`Identity.UserManager`);
- the like, rating and review repositories (`Repositories`), kept in insertion order.

Each controller action is a method, or a function when it only reads. Its contract gives every branch of the C# code, with its status code, error list, data, and the new contents of every table it writes. Every table keeps its id column unique.

What ASP.NET Identity decides in code that is not part of this model becomes an input:
- the errors its validators report;
- whether a reset token is valid;
- the password hasher.

The JWT handler, the provider's verdict on an external token, image cropping, the clock and fresh ids are also inputs.

A response is a bare status code, or a status code with the `{ IsSuccess, Errors, Data }` body. An `Errors` or `Data` of `null` or `""` becomes `[]` or `None`.

## Model

| member | source | states |
|---|---|---|
| LinkGeneratorFeature.Effective | Auth/Features/LinkGeneratorFeature.cs:9-16 | the caller's options are used unchanged; without any, `RequiredLength` 6, `RequiredUniqueChars` 3 and every one of the three classes required |
| LinkGeneratorFeature.Next | Auth/Features/LinkGeneratorFeature.cs:28 | `rand.Next(0, n)` is 0 for an empty range, otherwise below `n`; a draw already in range is returned unchanged |
| LinkGeneratorFeature.Insert | Auth/Features/LinkGeneratorFeature.cs:28-29 | `List.Insert(index, c)` puts `c` at `index`, keeps the prefix, shifts the suffix by one and grows the length by one |
| LinkGeneratorFeature.MultisetInsert | Auth/Features/LinkGeneratorFeature.cs:28-29 | counted with repetition, `List.Insert(index, c)` adds exactly one `c` and takes nothing away |
| LinkGeneratorFeature.ClassesExactly | Auth/Features/LinkGeneratorFeature.cs:18-22 | the three `randomChars` strings are exactly the capitals without 'I', the small letters without 'l' and the digits; neither 'I' nor 'l' is in the alphabet |
| LinkGeneratorFeature.RandomCharAt | Auth/Features/LinkGeneratorFeature.cs:18-22 | the character at any index of `randomChars[i]` belongs to class `i` |
| LinkGeneratorFeature.InsertAt | Auth/Features/LinkGeneratorFeature.cs:28-29 | element by element, the list after an insertion: the old characters before the index, the new one at it, the old ones shifted after it |
| LinkGeneratorFeature.Shifted | Auth/Features/LinkGeneratorFeature.cs:28-29 | the character at position `k` moves to `k + 1` when the insertion is at or before it, and stays put otherwise |
| LinkGeneratorFeature.RemoveInsert | Auth/Features/LinkGeneratorFeature.cs:43-44 | removing the character just inserted gives back the list before the insertion |
| LinkGeneratorFeature.DistinctInsert | Auth/Features/LinkGeneratorFeature.cs:40-44 | an insertion adds exactly its character to `chars.Distinct()` |
| LinkGeneratorFeature.InsertKeepsClasses | Auth/Features/LinkGeneratorFeature.cs:27-44 | characters are only inserted: a class present stays present; an insertion below `Count` keeps the last character last |
| LinkGeneratorFeature.DistinctAtMostLength | Auth/Features/LinkGeneratorFeature.cs:40 | `chars.Distinct().Count()` is at most `chars.Count` |
| LinkGeneratorFeature.DistinctBound | Auth/Features/LinkGeneratorFeature.cs:18-40 | a list over the alphabet has at most 60 distinct characters |
| LinkGeneratorFeature.AddUpper | Auth/Features/LinkGeneratorFeature.cs:27-29 | after the capital is inserted, the list holds exactly one required character, a capital |
| LinkGeneratorFeature.AddLower | Auth/Features/LinkGeneratorFeature.cs:31-33 | inserting a small letter below `Count` keeps the required characters pairwise distinct, one per flagged class, with the first one still last |
| LinkGeneratorFeature.AddDigit | Auth/Features/LinkGeneratorFeature.cs:35-37 | the same for the digit |
| LinkGeneratorFeature.CharStep | Auth/Features/LinkGeneratorFeature.cs:29 | the character `randomChars[k][rand.Next(0, randomChars[k].Length)]` picked with a draw is the class-`k` character that draw names |
| LinkGeneratorFeature.DrawStep | Auth/Features/LinkGeneratorFeature.cs:28-37 | inserting a character into the list and appending it to the characters drawn so far keep their distinct characters equal |
| LinkGeneratorFeature.DistinctSame | Auth/Features/LinkGeneratorFeature.cs:27-37 | two lists without repeated characters and with the same characters hold the same characters counted with repetition |
| LinkGeneratorFeature.RequiredSkip | Auth/Features/LinkGeneratorFeature.cs:27-37 | a block whose class is not required inserts nothing and uses no draws |
| LinkGeneratorFeature.RequiredUpper | Auth/Features/LinkGeneratorFeature.cs:27-29 | the `RequireUppercase` block: the list becomes the capital drawn with the second draw, two draws are used, and the characters drawn so far are that capital |
| LinkGeneratorFeature.RequiredLower | Auth/Features/LinkGeneratorFeature.cs:31-33 | the `RequireLowercase` block: the small letter drawn next is inserted below `Count`; the list keeps one distinct character per class flagged so far, exactly the characters drawn so far, with the first one inserted still last |
| LinkGeneratorFeature.RequiredDigit | Auth/Features/LinkGeneratorFeature.cs:35-37 | the same for the `RequireDigit` block and its digit |
| LinkGeneratorFeature.LastStep | Auth/Features/LinkGeneratorFeature.cs:28-37 | an insertion below `Count` keeps the last character; the first insertion into the empty list makes its character the last one |
| LinkGeneratorFeature.RequiredDone | Auth/Features/LinkGeneratorFeature.cs:27-37 | after the three `if` blocks, the list holds one distinct character per required class, all from the alphabet, with the first inserted character last, and counted with repetition it is exactly the characters drawn for the required classes |
| LinkGeneratorFeature.InsertRequired | Auth/Features/LinkGeneratorFeature.cs:27-37 | one character per required class, as many pairwise-distinct characters as classes required, all from the alphabet; counted with repetition, exactly the characters the draws pick for the required classes (the capital with the second draw, the small letter and the digit with the draws after their index draws); the last one is the first required class's character, picked by the second draw; None exactly when fewer than two draws per required class remain |
| LinkGeneratorFeature.ClassesStep | Auth/Features/LinkGeneratorFeature.cs:42-44 | one insertion below `Count` keeps the alphabet and every required class, and the last character stays the same character |
| LinkGeneratorFeature.LinkCharsInAlphabet | Auth/Features/LinkGeneratorFeature.cs:18-22 | a list of link characters is exactly a list of characters of `"ABCDEFGHJKLMNOPQRSTUVWXYZ" + "abcdefghijkmnopqrstuvwxyz" + "0123456789"` |
| LinkGeneratorFeature.NoConfusables | Auth/Features/LinkGeneratorFeature.cs:18-22 | a link never contains 'I' or 'l' |
| LinkGeneratorFeature.ProgressStep | Auth/Features/LinkGeneratorFeature.cs:39-44 | a pass taken while a threshold is unmet keeps the loop invariant: only insertions, the classes kept, the list before the pass failing a threshold |
| LinkGeneratorFeature.ProgressRoom | Auth/Features/LinkGeneratorFeature.cs:39-40 | when the required characters meet the distinct threshold, a pass runs only because the length is short |
| LinkGeneratorFeature.ProgressDone | Auth/Features/LinkGeneratorFeature.cs:39-40 | on exit: no pass exactly when the required characters meet both thresholds; removing the last-inserted character breaks a threshold, and that character is not at the end of a list of two or more; the length is `max(required, RequiredLength)` when only the length drove the loop |
| LinkGeneratorFeature.LoopStep | Auth/Features/LinkGeneratorFeature.cs:39-44 | a pass taken while a threshold is unmet, with three draws left, inserts `randomChars[class][char]` at the drawn index, keeps the loop invariant with three more draws consumed, and keeps the last character last |
| LinkGeneratorFeature.LoopExhausted | Auth/Features/LinkGeneratorFeature.cs:39-40 | when the draws run out inside the loop and the required characters meet the distinct threshold, there were fewer than the two per required character and three per missing character the length needs |
| LinkGeneratorFeature.DistinctMultiset | Auth/Features/LinkGeneratorFeature.cs:27-44 | pairwise-distinct characters that all still occur in the list form a sub-multiset of it: the required characters are all in the link |
| LinkGeneratorFeature.LoopDone | Auth/Features/LinkGeneratorFeature.cs:39-45 | on exit: both thresholds hold, every required class is present, every required character is still in the list, no pass exactly when the required characters meet both thresholds, removing the character inserted last breaks a threshold, leaves every required character in place, and was inserted below the `Count` it saw, so it is not last in a list of two or more |
| LinkGeneratorFeature.InsertRandom | Auth/Features/LinkGeneratorFeature.cs:39-45 | the loop with `i == chars.Count` and one insertion per pass: on return both thresholds hold, the classes are kept, every required character is still there (as a multiset), the last required character stays last, it stopped at the first point both held: the ghost `lastIndex` of the last pass is below the `Count` that pass saw, removing the character there breaks a threshold and leaves every required character, so that character was a random one. Three draws per pass; when the required characters meet the distinct threshold, enough draws for the length always give a link; None whenever `RequiredUniqueChars` exceeds 60 |
| LinkGeneratorFeature.LinkDone | Auth/Features/LinkGeneratorFeature.cs:7-48 | the facts of the required-class blocks and of the loop together give every property the predicate `Generated` lists for a link, including the six-character default shape |
| LinkGeneratorFeature.GenerateLink | Auth/Features/LinkGeneratorFeature.cs:7-48 | the whole generator; a link it returns satisfies `Generated`: alphabet, no 'I'/'l', `Count >= RequiredLength`, distinct count `>= RequiredUniqueChars`, each required class present; the required characters are exactly the ones drawn for the required classes and all are in the link; the first required character (picked by the second draw) is last; the loop runs iff the required characters miss a threshold and stops once removing its last insertion (made below that pass's `Count`, of a random character) would break one; with no options (lines 9-16) a six-character link ending in a capital with a small letter and a digit. Enough draws for the length give a link when the required characters meet the distinct threshold, so 15 draws always do with no options; None when `RequiredUniqueChars` exceeds 60 |
| Tables.Filter | Auth/Controllers/RatingController.cs:154 | `Where(p)`, the query behind every list lookup of the repositories: exactly the rows satisfying `p`, no more rows than the table |
| Tables.First | Auth/Controllers/RatingController.cs:116 | `FirstOrDefault(p)`, the query behind every single-row lookup: None iff no row satisfies `p`, otherwise the row at the first position that does |
| Tables.FilterCount | Auth/Controllers/LikeController.cs:170-171 | `Where(p).Count()` is the number of positions whose row satisfies `p` |
| Tables.FilterFilter | Auth/Controllers/ReviewController.cs:297-300 | two deletions in a row delete the rows either of them selects |
| Tables.DropKey | Auth/Controllers/LikeController.cs:85-90 | with unique ids, deleting by id removes exactly the one row with that id |
| Tables.DropSelected | Auth/Controllers/ReviewController.cs:295-307 | with unique ids, deleting one by one every row a query selects leaves exactly the rows it does not select |
| Tables.FilterNone | Auth/Controllers/ReviewController.cs:302 | a query no row satisfies selects nothing |
| Tables.FirstReplaced | Auth/Controllers/AccountsController.cs:157-158 | with unique ids, rewriting the user a lookup found, keeping its email, makes the rewritten user what the lookup finds next |
| Identity.UserManager.FindByEmail | Auth/Controllers/AccountsController.cs:57 | None iff no user has the email; otherwise a stored user with that email |
| Identity.UserManager.FindById | Auth/Controllers/ReviewController.cs:60 | None iff no stored user has the id; otherwise that user |
| Identity.UserManager.FindByLogin | Auth/Controllers/AccountsController.cs:298 | with a consistent store, None iff no login row has the (provider, key); otherwise a stored user who owns a login row with that (provider, key) |
| Identity.UserManager.CheckPassword | Auth/Controllers/AccountsController.cs:59 | `CheckPasswordAsync` succeeds only for a user with a stored password hash |
| Identity.UserManager.WithPassword | Auth/Controllers/AccountsController.cs:38 | the user `CreateAsync(user, password)` stores: id, email, user name and nickname kept; with no password the hash kept; with a password, `CheckPasswordAsync` of that password then succeeds |
| Identity.UserManager.CreateAsync | Auth/Controllers/AccountsController.cs:38 | stores the user, with the hashed password if one is given, exactly when no validator error is reported; logins untouched |
| Identity.UserManager.UpdateAsync | Auth/Controllers/AccountsController.cs:158 | writes the row with the user's id unless validators report errors; lookups by that email then find the written user |
| Identity.UserManager.ChangePasswordAsync | Auth/Controllers/AccountsController.cs:143 | a wrong current password fails with `PasswordMismatch` and changes nothing; otherwise writes the new hash, subject to the validators |
| Identity.UserManager.ResetPasswordAsync | Auth/Controllers/AccountsController.cs:232 | an invalid token fails with `InvalidToken` and changes nothing; otherwise writes the new hash, subject to the validators |
| Identity.UserManager.AddLoginAsync | Auth/Controllers/AccountsController.cs:307-311 | a login already in use is refused, and so is a user who is not stored; otherwise exactly one login row is appended; users untouched |
| EmailService.EmailSender.SendEmailAsync | Auth/Controllers/AccountsController.cs:212 | the message is appended to the log of sent messages |
| Repositories.LikeRepository.GetLike | Auth/Controllers/LikeController.cs:85 | None iff no like has the id; otherwise a stored like with that id |
| Repositories.LikeRepository.GetLikesByReviewId | Auth/Controllers/LikeController.cs:170 | exactly the stored likes of that review |
| Repositories.LikeRepository.GetLikeByUserAndReviewIds | Auth/Controllers/LikeController.cs:133 | None iff no like has that (user, review); otherwise the first stored like of that pair |
| Repositories.LikeRepository.CreateLike | Auth/Controllers/LikeController.cs:58 | appends the like, keeping ids unique |
| Repositories.LikeRepository.DeleteLike | Auth/Controllers/LikeController.cs:89 | removes the rows with the like's id, keeping ids unique |
| Repositories.RatingRepository.GetRating | Auth/Controllers/RatingController.cs:86 | None iff no rating has the id; otherwise a stored rating with that id |
| Repositories.RatingRepository.GetRatingsByReviewId | Auth/Controllers/RatingController.cs:154 | exactly the stored ratings of that review |
| Repositories.RatingRepository.GetRatingByUserAndReviewIds | Auth/Controllers/RatingController.cs:193 | None iff no rating has that (user, review); otherwise the first stored rating of that pair |
| Repositories.RatingRepository.CreateRating | Auth/Controllers/RatingController.cs:59 | appends the rating, keeping ids unique |
| Repositories.RatingRepository.UpdateRating | Auth/Controllers/RatingController.cs:89 | replaces the row with the rating's id, keeping ids unique |
| Repositories.RatingRepository.DeleteRating | Auth/Controllers/RatingController.cs:120 | removes the rows with the rating's id, keeping ids unique |
| Repositories.ReviewRepository.GetReviewsByUserId | DAL.Auth/Repository/Interfaces/IReviewRepository.cs:15 | exactly the stored reviews of that user |
| Repositories.ReviewRepository.GetByReviewId | DAL.Auth/Repository/Interfaces/IReviewRepository.cs:17 | None iff no review has the id; otherwise a stored review with that id |
| Repositories.ReviewRepository.CreateReview | DAL.Auth/Repository/Interfaces/IReviewRepository.cs:19 | appends the review, keeping ids unique |
| Repositories.ReviewRepository.UpdateReview | DAL.Auth/Repository/Interfaces/IReviewRepository.cs:21 | replaces the row with the review's id, keeping ids unique |
| Repositories.ReviewRepository.DeleteReview | DAL.Auth/Repository/Interfaces/IReviewRepository.cs:23 | removes the rows with the review's id, keeping ids unique |
| LikeApi.LikeCount | Auth/Controllers/LikeController.cs:170-171 | the count of `GetLikesByReviewId` is the number of likes whose review id matches |
| LikeApi.LikesSnoc | Auth/Controllers/LikeController.cs:49-58 | after an append, a review's like positions are its old ones, plus the new last position exactly when the new like is that review's |
| LikeApi.LikesAppend | Auth/Controllers/LikeController.cs:49-58 | an appended like adds exactly one position to its review's likes, and every other review's like positions stay as they were |
| LikeApi.LikeController.GetAllReviewLikes | Auth/Controllers/LikeController.cs:166-189 | Ok, with data equal to the number of likes with that review id |
| LikeApi.LikeController.IsLiked | Auth/Controllers/LikeController.cs:117-161 | `"User not found."` iff the email is unknown; otherwise success, with empty data iff no like has that (user, review), else a stored like of that pair |
| LikeApi.LikeController.CreateLike | Auth/Controllers/LikeController.cs:25-77 | unknown email: `"User not found."`; an existing like of that (user, review): `"Like already exists."`; both add nothing. Otherwise it appends and returns `Like(newId, user.Id, reviewId)`; `IsLiked` then returns it, the review's like count grows by one, and at most one like per (user, review) is kept |
| LikeApi.LikeController.DeleteLike | Auth/Controllers/LikeController.cs:81-113 | a missing id gives `"Like not found."` and deletes nothing; otherwise exactly the row with that id is removed, the others kept in order |
| RatingApi.RatingController.GetRatingByEmailAndReviewId | Auth/Controllers/RatingController.cs:177-222 | `"User not found."` iff the email is unknown; otherwise success, with empty data iff no rating has that (user, review), else a stored rating of that pair |
| RatingApi.RatingController.CreateRating | Auth/Controllers/RatingController.cs:25-78 | unknown email: `"User not found."`; an existing rating of that (user, review): `"Rating already exists."`; both add nothing. Otherwise it appends and returns `Rating(newId, Value, user.Id, reviewId)`; the lookup then returns it, and at most one rating per (user, review) is kept |
| RatingApi.RatingController.UpdateRating | Auth/Controllers/RatingController.cs:82-108 | a missing id fails on the null rating with `"Failed to update rating."` and changes nothing; otherwise only the `Value` of the row with that id changes, and the updated rating is returned |
| RatingApi.RatingController.DeleteRating | Auth/Controllers/RatingController.cs:112-144 | a missing id gives `"Rating record not found."` and deletes nothing; otherwise exactly the row with that id is removed |
| ReviewApi.ReviewController.Rated | Auth/Controllers/ReviewController.cs:54-55 | `Average` over `GetRatingsByReviewId(id)` has a value exactly when some stored rating has that review id |
| ReviewApi.ReviewController.ReviewLikes | Auth/Controllers/ReviewController.cs:57-58 | `GetLikesByReviewId(id).Count()` is the number of likes with that review id |
| ReviewApi.ReviewController.Enhanced | Auth/Controllers/ReviewController.cs:54-73 | None iff the review has no rating to average or `FindByIdAsync(review.UserId)` finds no author (both throw in C#); otherwise the stored review's fields copied, with the author's nickname and the review's like count |
| ReviewApi.ReviewController.GetReviewById | Auth/Controllers/ReviewController.cs:36-91 | no review: `"There is no such review."`; no rating (`Average` throws) or no author (the null dereference): `"Something went wrong."`, both caught; otherwise Ok with the stored review's fields copied, the author's nickname and the number of likes with that review id |
| ReviewApi.ReviewController.GetAllReviews | Auth/Controllers/ReviewController.cs:94-148 | any review without a rating or without an author: `"Something went wrong."`; otherwise one enhanced review per stored review, in table order |
| ReviewApi.ReviewController.GetReviewsByEmail | Auth/Controllers/ReviewController.cs:152-206 | unknown email (`user.Id` is dereferenced inside the `try`), or any review of the user without a rating: `"Something went wrong."`; otherwise one entry per review of `GetReviewsByUserId(user.Id)`, in order, each a stored review of that user, with the user's nickname and that review's like count |
| ReviewApi.ReviewController.EnhanceAll | Auth/Controllers/ReviewController.cs:163-187 | the `foreach` over the user's reviews: None iff some review has no rating to average; otherwise one entry per review, in order, with its fields copied, the author's nickname and its like count |
| ReviewApi.ReviewController.CreateReview | Auth/Controllers/ReviewController.cs:210-253 | unknown email: Unauthorized `"Invalid authentication"`, nothing added; otherwise it appends exactly one review with the DTO's texts, the cropped image, the time given, `UserId = user.Id`, and a link of default shape from `GenerateLink()` |
| ReviewApi.ReviewController.UpdateReview | Auth/Controllers/ReviewController.cs:257-283 | a missing id fails with `"Failed to update review."` and changes nothing; otherwise only `Title`, `Description`, `ReviewText`, `Theme` and `Image` (cropped) of that row change; `Id`, `Created`, `Link`, `UserId` and every other row stay |
| ReviewApi.ReviewController.DeleteLikesOf | Auth/Controllers/ReviewController.cs:295-300 | deleting each like of `GetLikesByReviewId(id)` leaves exactly the likes of other reviews |
| ReviewApi.ReviewController.DeleteRatingsOf | Auth/Controllers/ReviewController.cs:302-307 | deleting each rating of `GetRatingsByReviewId(id)` leaves exactly the ratings of other reviews |
| ReviewApi.ReviewController.DeleteReview | Auth/Controllers/ReviewController.cs:287-334 | a missing id: `"Review not found."`, no table changed; otherwise every like and rating of the review is gone, every like and rating of every other review stays, and exactly the review's row is removed |
| AccountsApi.AccountsController.Login | Auth/Controllers/AccountsController.cs:55-82 | the same Unauthorized `["Invalid authentication"]` exactly when the email is unknown or the password check fails; otherwise Ok with the user's token |
| AccountsApi.AccountsController.AccountInfo | Auth/Controllers/AccountsController.cs:86-110 | Unauthorized iff the email is unknown; otherwise the user's nickname and email |
| AccountsApi.AccountsController.Register | Auth/Controllers/AccountsController.cs:35-52 | validator errors: BadRequest with every description, in order, and no user added; otherwise 201 and exactly the mapped user, with the hashed password, appended; a first account with that email can then log in with that password |
| AccountsApi.AccountsController.ChangeSettings | Auth/Controllers/AccountsController.cs:114-184 | unknown email: Unauthorized, nothing changed. The password is touched only when `OldPassword`, `Password` and `ConfirmPassword` are all non-empty; `ConfirmPassword` is only tested for emptiness. A wrong old password: `"Invalid password"`, nothing changed. A failed change: its errors, nothing changed. Otherwise the nickname is set and the user written. A failed write keeps a password change already made. On success: the token of the updated user; login with the new password and `AccountInfo` then see the new state |
| AccountsApi.AccountsController.ForgotPassword | Auth/Controllers/AccountsController.cs:187-215 | unknown email: Unauthorized and nothing sent; otherwise Ok and exactly one message sent, the reset message with Identity's token |
| AccountsApi.AccountsController.ResetPassword | Auth/Controllers/AccountsController.cs:218-246 | unknown email: Unauthorized; an invalid token or validator errors: BadRequest with those descriptions, nothing changed; otherwise Ok, the new password hash stored, and login with the new password then succeeds |
| AccountsApi.AccountsController.ExternalLogin | Auth/Controllers/AccountsController.cs:249-333 | a provider other than `"FACEBOOK"`/`"GOOGLE"`, or a rejected token: `"Invalid External Authentication."`, nothing changed. Otherwise, in this order: an existing login gives its owner's token, with no writes; an existing email gets the login and its token, with no new user; otherwise a new user `Email = UserName = Nickname = email` gets the login and a token. The results of `CreateAsync` and `AddLoginAsync` are ignored: failed validation adds neither row but still yields the token |

## Left out

- Randomness: `Random(Environment.TickCount)` is not modelled; the draws are an input, and a finite list of them stands in for the unbounded C# generator. `GenerateLink` returns None when they run out. With `RequiredUniqueChars` above 60 the C# loop never ends, and the model returns None.
- ReviewApi.ReviewController.CreateReview: requires the 15 draws a default link consumes, because the C# generator never runs out; with fewer the model would have no link to store.
- The loop counter `i` of the generator is a C# `int`; it cannot overflow before the list exhausts memory, so it is unbounded here.
- `RequireNonAlphanumeric` and the other `PasswordOptions` fields are not read by the generator and are not modelled.
- LinkGeneratorFeature.GenerateLink: the alphabet is stated through the range predicate `AllLinkChars`; `LinkCharsInAlphabet` ties it to the three literal strings.
- LinkGeneratorFeature.InsertRandom: the stop condition is stated through the ghost index `lastIndex` of the last insertion. That index is known to be below the `Count` its pass saw, but it is not tied to the index draw that chose it, and the condition is not stated for every earlier prefix.
- LinkGeneratorFeature.GenerateLink: the same holds for its stop condition, which it takes from InsertRandom.
- LinkGeneratorFeature.GenerateLink: which character each loop pass adds is not stated beyond "a link character, only inserted"; with no class required, which character ends the link is not stated.
- Guid parsing (`new Guid(dto.ReviewId)`) and Guid generation: DTOs carry ids, and fresh ids are inputs required to be unused; the `FormatException` of a malformed id is not modelled.
- Hashing, JWT issuance, reset-token generation and validation, password and user validators: inputs (a hash function, a token function, a validity flag, error lists); `CheckPasswordAsync` is hash equality.
- The Identity error texts (`PasswordMismatch`, `InvalidToken`, `LoginAlreadyAssociated`, `ConcurrencyFailure`) follow Identity's default error describer; that library is not part of this model.
- Facebook and Google token verification: a network call, modelled as an optional (key, email) verdict.
- The AutoMapper profile is not part of this model; `Register` assumes it maps `Email` to `Email` and `UserName` and `Nickname` to `Nickname`.
- `FindByEmailAsync` is modelled as the first user with that exact email; Identity's normalised, case-insensitive lookup and its error on duplicate emails are not modelled.
- Rating averages: the floating-point value of `Average(x => x.Value)`, `EnhancedReview.Rating` and `RatingController.GetReviewsRating` are left out. Only the exception that `Average` throws on a review with no ratings is modelled, as the getters' `"Something went wrong."`. `Rating.cs` is not part of this model; `Value` is taken to be a non-nullable `int`, for which `Average` over no elements throws.
- `AccountsController.GetAllUsers` and `LikeController.GetAllUsersLikes` are left out: a JSON projection of the user table, and a repository query whose implementation is not part of this model.
- JSON shaping of the bodies (`JsonObject`, anonymous types) and the `Errors = ""` / `Data = ""` placeholders are modelled as `[]` and `None`.
- URL encoding by `QueryHelpers.AddQueryString`: the callback is kept as the URI and its query pairs.
- `CropImageFeature.CropImage` is an input function; the clock (`DateTime.Now`) is an input time.
- Nullable strings in DTOs and records are plain strings; `IsNullOrEmpty` is a test against `""`.
- Persistence failures (`SaveChanges`) and the catch branches they reach ("Failed to create like.", "Failed to delete review.", ...) are not modelled. Only the exceptions the controllers' own code raises on a missing record are modelled.
- Concurrency: the check-then-insert races of `CreateLike`, `CreateRating` and `ExternalLogin`, and database-level uniqueness, are outside this sequential model.
- An email is modelled as sent by appending it to a log; delivery is not modelled.
