/**
 * The records the controllers read and write (`User`, `Review`, `Like`,
 * `Rating`, the external-login rows of ASP.NET Identity), the results
 * Identity reports, and the HTTP responses the controllers build.
 *
 * Ids: `Guid` keys and Identity's string user ids are both abstracted to
 * natural numbers; only their equality matters here.
 */
module Models {
  import opened Wrappers

  type Guid = nat
  type UserId = nat

  /** An Identity user; `passwordHash` is None for a user created without a password (external login). */
  datatype User = User(id: UserId, email: string, userName: string, nickname: string, passwordHash: Option<string>)

  /** A row of Identity's external-login table. */
  datatype UserLogin = UserLogin(loginProvider: string, providerKey: string, providerDisplayName: string, userId: UserId)

  /** `DAL.Auth.Models.Review`; `created` is a point in time. */
  datatype Review = Review(
    id: Guid,
    title: string,
    description: string,
    reviewText: string,
    theme: string,
    image: string,
    created: nat,
    link: string,
    userId: UserId)

  /** `DAL.Auth.Models.Like`. */
  datatype Like = Like(id: Guid, userId: UserId, reviewId: Guid)

  /** A rating row: one user's value for one review. */
  datatype Rating = Rating(id: Guid, value: int, userId: UserId, reviewId: Guid)

  /** The review as the getters return it, with the author's nickname and the number of likes. */
  datatype EnhancedReview = EnhancedReview(
    id: Guid,
    nickname: string,
    title: string,
    description: string,
    reviewText: string,
    theme: string,
    image: string,
    created: nat,
    link: string,
    userId: UserId,
    likesCount: nat)

  /** `IdentityError` and `IdentityResult`. */
  datatype IdentityError = IdentityError(code: string, description: string)

  datatype IdentityResult = Success | Failed(errors: seq<IdentityError>) {
    predicate Succeeded() {
      Success?
    }
  }

  /** `IdentityResult.Failed(errors)` unless there are none. */
  function Outcome(errors: seq<IdentityError>): (r: IdentityResult)
    ensures r.Succeeded() <==> errors == []
    ensures !r.Succeeded() ==> r.errors == errors
  {
    if errors == [] then Success else Failed(errors)
  }

  /** `result.Errors.Select(e => e.Description)`. */
  function Descriptions(errors: seq<IdentityError>): (r: seq<string>)
    ensures |r| == |errors| && forall k :: 0 <= k < |errors| ==> r[k] == errors[k].description
  {
    seq(|errors|, k requires 0 <= k < |errors| => errors[k].description)
  }

  /**
   * An action result: a bare status code (`Ok()`, `StatusCode(201)`) or a status
   * code with the `{ IsSuccess, Errors, Data }` body the controllers build. An
   * `Errors` or `Data` of null or "" is the empty sequence or None.
   */
  datatype Response<T> =
    | Status(code: nat)
    | Body(code: nat, isSuccess: bool, errors: seq<string>, data: Option<T>)

  const OkCode: nat := 200
  const CreatedCode: nat := 201
  const BadRequestCode: nat := 400
  const UnauthorizedCode: nat := 401

  function Ok<T>(data: Option<T>): Response<T> {
    Body(OkCode, true, [], data)
  }

  function BadRequest<T>(errors: seq<string>): Response<T> {
    Body(BadRequestCode, false, errors, None)
  }

  function Unauthorized<T>(message: string): Response<T> {
    Body(UnauthorizedCode, false, [message], None)
  }

  const InvalidAuthentication := "Invalid authentication"
  const InvalidPassword := "Invalid password"
  const InvalidExternalAuthentication := "Invalid External Authentication."
  const NoSuchReview := "There is no such review."
  const SomethingWentWrong := "Something went wrong."
  const FailedToUpdateReview := "Failed to update review."
  const ReviewNotFound := "Review not found."
  const UserNotFound := "User not found."
  const RatingAlreadyExists := "Rating already exists."
  const FailedToUpdateRating := "Failed to update rating."
  const RatingRecordNotFound := "Rating record not found."
  const LikeAlreadyExists := "Like already exists."
  const LikeNotFound := "Like not found."

  // The row predicates of the queries, named so that every query on a table
  // uses the same predicate value.

  function UserHasEmail(email: string): User -> bool {
    (u: User) => u.email == email
  }

  function UserHasId(id: UserId): User -> bool {
    (u: User) => u.id == id
  }

  function UserKey(u: User): UserId {
    u.id
  }

  function LoginIs(provider: string, key: string): UserLogin -> bool {
    (l: UserLogin) => l.loginProvider == provider && l.providerKey == key
  }

  function LoginKey(l: UserLogin): (string, string) {
    (l.loginProvider, l.providerKey)
  }

  function ReviewHasId(id: Guid): Review -> bool {
    (r: Review) => r.id == id
  }

  function ReviewNotId(id: Guid): Review -> bool {
    (r: Review) => r.id != id
  }

  function ReviewOfUser(userId: UserId): Review -> bool {
    (r: Review) => r.userId == userId
  }

  function ReviewKey(r: Review): Guid {
    r.id
  }

  function LikeHasId(id: Guid): Like -> bool {
    (l: Like) => l.id == id
  }

  function LikeNotId(id: Guid): Like -> bool {
    (l: Like) => l.id != id
  }

  function LikeOfReview(reviewId: Guid): Like -> bool {
    (l: Like) => l.reviewId == reviewId
  }

  function LikeNotOfReview(reviewId: Guid): Like -> bool {
    (l: Like) => l.reviewId != reviewId
  }

  function LikeOfUserAndReview(userId: UserId, reviewId: Guid): Like -> bool {
    (l: Like) => l.userId == userId && l.reviewId == reviewId
  }

  function LikeKey(l: Like): Guid {
    l.id
  }

  function RatingHasId(id: Guid): Rating -> bool {
    (r: Rating) => r.id == id
  }

  function RatingNotId(id: Guid): Rating -> bool {
    (r: Rating) => r.id != id
  }

  function RatingOfReview(reviewId: Guid): Rating -> bool {
    (r: Rating) => r.reviewId == reviewId
  }

  function RatingNotOfReview(reviewId: Guid): Rating -> bool {
    (r: Rating) => r.reviewId != reviewId
  }

  function RatingOfUserAndReview(userId: UserId, reviewId: Guid): Rating -> bool {
    (r: Rating) => r.userId == userId && r.reviewId == reviewId
  }

  function RatingKey(r: Rating): Guid {
    r.id
  }
}
