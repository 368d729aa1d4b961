/**
 * `ReviewController`: the review getters with the author's nickname and the
 * like count, creation with a generated link, an update of the editable
 * fields, and deletion together with the review's likes and ratings.
 */
module ReviewApi {
  import opened Wrappers
  import opened Tables
  import opened Models
  import opened Identity
  import opened Repositories
  import LinkGeneratorFeature
  import LikeApi

  datatype CreateReviewRequestDto = CreateReviewRequestDto(
    email: string, title: string, description: string, reviewText: string, theme: string, image: string)

  datatype UpdateReviewRequestDto = UpdateReviewRequestDto(
    id: Guid, title: string, description: string, reviewText: string, theme: string, image: string)

  /** The enhanced review carries the stored review's own fields unchanged. */
  predicate CopiesReview(e: EnhancedReview, r: Review) {
    && e.id == r.id
    && e.title == r.title
    && e.description == r.description
    && e.reviewText == r.reviewText
    && e.theme == r.theme
    && e.image == r.image
    && e.created == r.created
    && e.link == r.link
    && e.userId == r.userId
  }

  /** The `EnhancedReview` initializer of the getters. */
  function Enhance(review: Review, nickname: string, likesCount: nat): (e: EnhancedReview)
    ensures CopiesReview(e, review) && e.nickname == nickname && e.likesCount == likesCount
  {
    EnhancedReview(review.id, nickname, review.title, review.description, review.reviewText, review.theme,
      review.image, review.created, review.link, review.userId, likesCount)
  }

  class ReviewController {
    const reviewRepository: ReviewRepository
    const likeRepository: LikeRepository
    const userManager: UserManager
    const ratingRepository: RatingRepository
    /** `CropImageFeature.CropImage(image, (int)ImageSizeEnum.Default)`. */
    const cropImage: string -> string

    constructor (reviewRepository: ReviewRepository, userManager: UserManager, likeRepository: LikeRepository,
                 ratingRepository: RatingRepository, cropImage: string -> string)
      ensures this.reviewRepository == reviewRepository && this.userManager == userManager
      ensures this.likeRepository == likeRepository && this.ratingRepository == ratingRepository
      ensures this.cropImage == cropImage
    {
      this.reviewRepository := reviewRepository;
      this.userManager := userManager;
      this.likeRepository := likeRepository;
      this.ratingRepository := ratingRepository;
      this.cropImage := cropImage;
    }

    ghost predicate Valid()
      reads reviewRepository, likeRepository, ratingRepository
    {
      reviewRepository.Valid() && likeRepository.Valid() && ratingRepository.Valid()
    }

    /** The number of likes of a review, as `GetLikesByReviewId(id).Count()`. */
    function ReviewLikes(reviewId: Guid): (n: nat)
      reads likeRepository
      ensures n == |LikeApi.LikesOf(likeRepository.likes, reviewId)|
    {
      LikeApi.LikeCount(likeRepository.likes, reviewId);
      |likeRepository.GetLikesByReviewId(reviewId)|
    }

    /**
     * The review has a rating, so `Average(x => x.Value)` over its ratings has a value;
     * over none it throws, and the getters' `catch` answers `"Something went wrong."`.
     */
    predicate Rated(reviewId: Guid)
      reads ratingRepository
      ensures Rated(reviewId) <==>
        exists k :: 0 <= k < |ratingRepository.ratings| && ratingRepository.ratings[k].reviewId == reviewId
    {
      var rs := ratingRepository.GetRatingsByReviewId(reviewId);
      assert rs != [] ==> rs[0] in rs;
      rs != []
    }

    /**
     * A review as the getters show it, or None when the C# code throws: the review has no
     * rating to average, or its author is not found and the null user is dereferenced.
     */
    function Enhanced(review: Review): (e: Option<EnhancedReview>)
      reads userManager, likeRepository, ratingRepository
      ensures e.None? <==> !Rated(review.id) || userManager.FindById(review.userId).None?
      ensures e.Some? ==>
        && CopiesReview(e.value, review)
        && e.value.nickname == userManager.FindById(review.userId).value.nickname
        && e.value.likesCount == |LikeApi.LikesOf(likeRepository.likes, review.id)|
    {
      if !Rated(review.id) then None
      else
        match userManager.FindById(review.userId)
        case None => None
        case Some(author) => Some(Enhance(review, author.nickname, ReviewLikes(review.id)))
    }

    /** `GetReviewById(id)`. */
    function GetReviewById(id: Guid): (r: Response<EnhancedReview>)
      reads reviewRepository, userManager, likeRepository, ratingRepository
      ensures var review := reviewRepository.GetByReviewId(id);
        && (review.None? ==> r == BadRequest([NoSuchReview]))
        && (review.Some? && (!Rated(id) || userManager.FindById(review.value.userId).None?) ==>
              r == BadRequest([SomethingWentWrong]))
        && (review.Some? && Rated(id) && userManager.FindById(review.value.userId).Some? ==>
              && r.Body? && r.code == OkCode && r.isSuccess && r.errors == [] && r.data.Some?
              && review.value in reviewRepository.reviews && review.value.id == id
              && CopiesReview(r.data.value, review.value)
              && r.data.value.nickname == userManager.FindById(review.value.userId).value.nickname
              && r.data.value.likesCount == |LikeApi.LikesOf(likeRepository.likes, id)|)
    {
      match reviewRepository.GetByReviewId(id)
      case None => BadRequest([NoSuchReview])
      case Some(review) =>
        match Enhanced(review)
        case None => BadRequest([SomethingWentWrong])
        case Some(e) => Ok(Some(e))
    }

    /** `GetAllReviews()`: every review in table order, or the failure of a review without a rating or an author. */
    method GetAllReviews() returns (response: Response<seq<EnhancedReview>>)
      ensures var rs := reviewRepository.reviews;
        (exists k :: 0 <= k < |rs| && Enhanced(rs[k]).None?) ==> response == BadRequest([SomethingWentWrong])
      ensures var rs := reviewRepository.reviews;
        (forall k :: 0 <= k < |rs| ==> Enhanced(rs[k]).Some?) ==>
          && response.Body? && response.code == OkCode && response.isSuccess && response.errors == []
          && response.data.Some? && |response.data.value| == |rs|
          && forall k :: 0 <= k < |rs| ==> Enhanced(rs[k]) == Some(response.data.value[k])
    {
      var rs := reviewRepository.GetAllReviews();
      var result: seq<EnhancedReview> := [];
      var i := 0;
      while i < |rs|
        invariant 0 <= i <= |rs| && |result| == i
        invariant forall k :: 0 <= k < i ==> Enhanced(rs[k]) == Some(result[k])
      {
        var e := Enhanced(rs[i]);
        if e.None? {
          return BadRequest([SomethingWentWrong]);
        }
        result := result + [e.value];
        i := i + 1;
      }
      response := Ok(Some(result));
    }

    /** `GetReviewsByEmail(email)`: the user's reviews, each with the user's nickname, or the failure of an unrated one. */
    method GetReviewsByEmail(email: string) returns (response: Response<seq<EnhancedReview>>)
      ensures userManager.FindByEmail(email).None? ==> response == BadRequest([SomethingWentWrong])
      ensures var user := userManager.FindByEmail(email); user.Some? ==>
        var rs := reviewRepository.GetReviewsByUserId(user.value.id);
        (exists k :: 0 <= k < |rs| && !Rated(rs[k].id)) ==> response == BadRequest([SomethingWentWrong])
      ensures var user := userManager.FindByEmail(email); user.Some? ==>
        var rs := reviewRepository.GetReviewsByUserId(user.value.id);
        (forall k :: 0 <= k < |rs| ==> Rated(rs[k].id)) ==>
        && response.Body? && response.code == OkCode && response.isSuccess && response.errors == []
        && response.data.Some? && |response.data.value| == |rs|
        && forall k :: 0 <= k < |rs| ==>
             && rs[k] in reviewRepository.reviews
             && CopiesReview(response.data.value[k], rs[k])
             && response.data.value[k].userId == user.value.id
             && response.data.value[k].nickname == user.value.nickname
             && response.data.value[k].likesCount == |LikeApi.LikesOf(likeRepository.likes, rs[k].id)|
    {
      var user := userManager.FindByEmail(email);
      if user.None? {
        return BadRequest([SomethingWentWrong]);
      }
      var rs := reviewRepository.GetReviewsByUserId(user.value.id);
      var result := EnhanceAll(rs, user.value);
      if result.None? {
        ghost var k :| 0 <= k < |rs| && !Rated(rs[k].id);
        assert !(forall j :: 0 <= j < |rs| ==> Rated(rs[j].id));
        assert rs == reviewRepository.GetReviewsByUserId(userManager.FindByEmail(email).value.id);
        return BadRequest([SomethingWentWrong]);
      }
      assert forall k :: 0 <= k < |rs| ==> rs[k] in reviewRepository.reviews && rs[k].userId == user.value.id by {
        forall k | 0 <= k < |rs| ensures rs[k] in reviewRepository.reviews && rs[k].userId == user.value.id {
          assert rs[k] in rs;
        }
      }
      response := Ok(Some(result.value));
    }

    /** The `foreach` of `GetReviewsByEmail`: each review with the author's nickname, or None at the first one without a rating. */
    method EnhanceAll(rs: seq<Review>, author: User) returns (result: Option<seq<EnhancedReview>>)
      ensures result.None? <==> exists k :: 0 <= k < |rs| && !Rated(rs[k].id)
      ensures result.Some? ==> |result.value| == |rs|
      ensures result.Some? ==> forall k :: 0 <= k < |rs| ==>
        && CopiesReview(result.value[k], rs[k])
        && result.value[k].nickname == author.nickname
        && result.value[k].likesCount == |LikeApi.LikesOf(likeRepository.likes, rs[k].id)|
    {
      var es: seq<EnhancedReview> := [];
      var i := 0;
      while i < |rs|
        invariant 0 <= i <= |rs| && |es| == i
        invariant forall k :: 0 <= k < i ==> Rated(rs[k].id)
        invariant forall k :: 0 <= k < i ==> es[k] == Enhance(rs[k], author.nickname, ReviewLikes(rs[k].id))
      {
        if !Rated(rs[i].id) {
          return None;
        }
        es := es + [Enhance(rs[i], author.nickname, ReviewLikes(rs[i].id))];
        i := i + 1;
      }
      result := Some(es);
    }

    /** `CreateReview(dto)`: a new review of the user's, with a link from `GenerateLink()`. */
    method CreateReview(dto: CreateReviewRequestDto, newId: Guid, now: nat, draws: seq<nat>) returns (response: Response<()>)
      requires Valid() && FreshKey(reviewRepository.reviews, ReviewKey, newId)
      requires |draws| >= 15
      modifies reviewRepository
      ensures Valid()
      ensures userManager.FindByEmail(dto.email).None? ==>
        response == Unauthorized(InvalidAuthentication) && reviewRepository.reviews == old(reviewRepository.reviews)
      ensures var user := userManager.FindByEmail(dto.email); user.Some? ==>
        && response == Status(OkCode)
        && |reviewRepository.reviews| == |old(reviewRepository.reviews)| + 1
        && reviewRepository.reviews[..|old(reviewRepository.reviews)|] == old(reviewRepository.reviews)
        && var r := reviewRepository.reviews[|old(reviewRepository.reviews)|];
           && r == Review(newId, dto.title, dto.description, dto.reviewText, dto.theme, cropImage(dto.image), now, r.link, user.value.id)
           && LinkGeneratorFeature.DefaultShape(r.link)
    {
      var user := userManager.FindByEmail(dto.email);
      if user.None? {
        return Unauthorized(InvalidAuthentication);
      }
      var link, _, _ := LinkGeneratorFeature.GenerateLink(None, draws);
      var review := Review(newId, dto.title, dto.description, dto.reviewText, dto.theme, cropImage(dto.image), now,
        link.value, user.value.id);
      reviewRepository.CreateReview(review);
      response := Status(OkCode);
    }

    /** `UpdateReview(dto)`: rewrites the editable fields; a missing id fails on the null review. */
    method UpdateReview(dto: UpdateReviewRequestDto) returns (response: Response<()>)
      requires Valid()
      modifies reviewRepository
      ensures Valid()
      ensures old(reviewRepository.GetByReviewId(dto.id)).None? ==>
        response == BadRequest([FailedToUpdateReview]) && reviewRepository.reviews == old(reviewRepository.reviews)
      ensures old(reviewRepository.GetByReviewId(dto.id)).Some? ==>
        && response == Status(OkCode)
        && |reviewRepository.reviews| == |old(reviewRepository.reviews)|
        && forall k :: 0 <= k < |reviewRepository.reviews| ==>
             reviewRepository.reviews[k] ==
               if old(reviewRepository.reviews)[k].id == dto.id then
                 old(reviewRepository.reviews)[k].(title := dto.title, description := dto.description,
                   reviewText := dto.reviewText, theme := dto.theme, image := cropImage(dto.image))
               else old(reviewRepository.reviews)[k]
    {
      var current := reviewRepository.GetByReviewId(dto.id);
      if current.None? {
        return BadRequest([FailedToUpdateReview]);
      }
      ghost var before := reviewRepository.reviews;
      var updated := current.value.(title := dto.title, description := dto.description,
        reviewText := dto.reviewText, theme := dto.theme, image := cropImage(dto.image));
      forall k | 0 <= k < |before| && before[k].id == dto.id ensures before[k] == current.value {
        KeyedRow(before, ReviewKey, before[k], current.value);
      }
      reviewRepository.UpdateReview(updated);
      response := Status(OkCode);
    }

    /** The `foreach` over `GetLikesByReviewId(id)` calling `DeleteLike`. */
    method DeleteLikesOf(reviewId: Guid)
      requires likeRepository.Valid()
      modifies likeRepository
      ensures likeRepository.Valid()
      ensures likeRepository.likes == Filter(old(likeRepository.likes), LikeNotOfReview(reviewId))
      ensures LikeApi.LikesOf(likeRepository.likes, reviewId) == {}
    {
      var likes := likeRepository.GetLikesByReviewId(reviewId);
      ghost var table := likeRepository.likes;
      FilterAll(table, KeyNotIn(LikeKey, {}));
      assert Keys(likes[..0], LikeKey) == {};
      var i := 0;
      while i < |likes|
        invariant 0 <= i <= |likes| && likeRepository.Valid()
        invariant likeRepository.likes == Filter(table, KeyNotIn(LikeKey, Keys(likes[..i], LikeKey)))
      {
        DropKeyStep(table, LikeKey, Keys(likes[..i], LikeKey), likes[i].id, LikeNotId(likes[i].id));
        KeysStep(likes, LikeKey, i);
        likeRepository.DeleteLike(likes[i]);
        i := i + 1;
      }
      assert likes[..i] == likes;
      DropSelected(table, LikeKey, LikeOfReview(reviewId), LikeNotOfReview(reviewId));
      assert forall k :: 0 <= k < |likeRepository.likes| ==> likeRepository.likes[k].reviewId != reviewId;
    }

    /** The `foreach` over `GetRatingsByReviewId(id)` calling `DeleteRating`. */
    method DeleteRatingsOf(reviewId: Guid)
      requires ratingRepository.Valid()
      modifies ratingRepository
      ensures ratingRepository.Valid()
      ensures ratingRepository.ratings == Filter(old(ratingRepository.ratings), RatingNotOfReview(reviewId))
      ensures ratingRepository.GetRatingsByReviewId(reviewId) == []
    {
      var ratings := ratingRepository.GetRatingsByReviewId(reviewId);
      ghost var table := ratingRepository.ratings;
      FilterAll(table, KeyNotIn(RatingKey, {}));
      assert Keys(ratings[..0], RatingKey) == {};
      var i := 0;
      while i < |ratings|
        invariant 0 <= i <= |ratings| && ratingRepository.Valid()
        invariant ratingRepository.ratings == Filter(table, KeyNotIn(RatingKey, Keys(ratings[..i], RatingKey)))
      {
        DropKeyStep(table, RatingKey, Keys(ratings[..i], RatingKey), ratings[i].id, RatingNotId(ratings[i].id));
        KeysStep(ratings, RatingKey, i);
        ratingRepository.DeleteRating(ratings[i]);
        i := i + 1;
      }
      assert ratings[..i] == ratings;
      DropSelected(table, RatingKey, RatingOfReview(reviewId), RatingNotOfReview(reviewId));
      FilterNone(ratingRepository.ratings, RatingOfReview(reviewId));
    }

    /** `DeleteReview(id)`: deletes the review's likes, its ratings, then the review. */
    method DeleteReview(id: Guid) returns (response: Response<()>)
      requires Valid()
      modifies reviewRepository, likeRepository, ratingRepository
      ensures Valid()
      ensures old(reviewRepository.GetByReviewId(id)).None? ==>
        && response == BadRequest([ReviewNotFound])
        && reviewRepository.reviews == old(reviewRepository.reviews)
        && likeRepository.likes == old(likeRepository.likes)
        && ratingRepository.ratings == old(ratingRepository.ratings)
      ensures old(reviewRepository.GetByReviewId(id)).Some? ==>
        && response == Status(OkCode)
        && likeRepository.likes == Filter(old(likeRepository.likes), LikeNotOfReview(id))
        && ratingRepository.ratings == Filter(old(ratingRepository.ratings), RatingNotOfReview(id))
        && LikeApi.LikesOf(likeRepository.likes, id) == {}
        && ratingRepository.GetRatingsByReviewId(id) == []
        && exists i :: 0 <= i < |old(reviewRepository.reviews)| && old(reviewRepository.reviews)[i].id == id &&
             reviewRepository.reviews == old(reviewRepository.reviews)[..i] + old(reviewRepository.reviews)[i + 1..]
    {
      var review := reviewRepository.GetByReviewId(id);
      if review.None? {
        return BadRequest([ReviewNotFound]);
      }
      DeleteLikesOf(id);
      DeleteRatingsOf(id);
      ghost var before := reviewRepository.reviews;
      ghost var i :| 0 <= i < |before| && before[i] == review.value && before[i].id == id;
      DropKey(before, ReviewKey, ReviewNotId(id), i);
      reviewRepository.DeleteReview(review.value);
      response := Status(OkCode);
    }
  }
}
