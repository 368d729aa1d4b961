/**
 * `RatingController`: a user rates a review at most once, an update writes
 * only the value, and a rating is deleted by its id.
 */
module RatingApi {
  import opened Wrappers
  import opened Tables
  import opened Models
  import opened Identity
  import opened Repositories

  datatype CreateRatingRequestDto = CreateRatingRequestDto(email: string, reviewId: Guid, value: int)
  datatype UpdateRatingRequestDto = UpdateRatingRequestDto(id: Guid, value: int)
  datatype GetRatingByEmailAndReviewIdRequestDto = GetRatingByEmailAndReviewIdRequestDto(email: string, reviewId: Guid)

  /** The (user, review) pair a rating is about. */
  function RatingPair(r: Rating): (UserId, Guid) {
    (r.userId, r.reviewId)
  }

  class RatingController {
    const ratingRepository: RatingRepository
    const userManager: UserManager

    constructor (ratingRepository: RatingRepository, userManager: UserManager)
      ensures this.ratingRepository == ratingRepository && this.userManager == userManager
    {
      this.ratingRepository := ratingRepository;
      this.userManager := userManager;
    }

    ghost predicate Valid()
      reads ratingRepository
    {
      ratingRepository.Valid()
    }

    /** `GetRatingByEmailAndReviewId(dto)`: the user's rating of the review, if there is one. */
    function GetRatingByEmailAndReviewId(dto: GetRatingByEmailAndReviewIdRequestDto): (r: Response<Rating>)
      reads userManager, ratingRepository
      ensures var user := userManager.FindByEmail(dto.email);
        && (user.None? <==> r == BadRequest([UserNotFound]))
        && (user.Some? ==> r.Body? && r.code == OkCode && r.isSuccess && r.errors == [])
        && (user.Some? && r.data.Some? ==>
              r.data.value in ratingRepository.ratings && RatingPair(r.data.value) == (user.value.id, dto.reviewId))
        && (user.Some? ==> (r.data.None? <==>
              forall k :: 0 <= k < |ratingRepository.ratings| ==>
                RatingPair(ratingRepository.ratings[k]) != (user.value.id, dto.reviewId)))
    {
      match userManager.FindByEmail(dto.email)
      case None => BadRequest([UserNotFound])
      case Some(user) => Ok(ratingRepository.GetRatingByUserAndReviewIds(user.id, dto.reviewId))
    }

    /** `CreateRating(dto)`: refuses an unknown email and a second rating of the same review by the same user. */
    method CreateRating(dto: CreateRatingRequestDto, newId: Guid) returns (response: Response<Rating>)
      requires Valid() && FreshKey(ratingRepository.ratings, RatingKey, newId)
      modifies ratingRepository
      ensures Valid()
      ensures var user := userManager.FindByEmail(dto.email);
        user.None? ==> response == BadRequest([UserNotFound]) && ratingRepository.ratings == old(ratingRepository.ratings)
      ensures var user := userManager.FindByEmail(dto.email);
        user.Some? && old(ratingRepository.GetRatingByUserAndReviewIds(user.value.id, dto.reviewId)).Some? ==>
          response == BadRequest([RatingAlreadyExists]) && ratingRepository.ratings == old(ratingRepository.ratings)
      ensures var user := userManager.FindByEmail(dto.email);
        user.Some? && old(ratingRepository.GetRatingByUserAndReviewIds(user.value.id, dto.reviewId)).None? ==>
          var rating := Rating(newId, dto.value, user.value.id, dto.reviewId);
          response == Ok(Some(rating)) && ratingRepository.ratings == old(ratingRepository.ratings) + [rating]
      // afterwards the lookup by email and review answers with the new rating
      ensures response.code == OkCode ==>
        GetRatingByEmailAndReviewId(GetRatingByEmailAndReviewIdRequestDto(dto.email, dto.reviewId)) == response
      // sequentially, at most one rating per user and review
      ensures old(UniqueBy(ratingRepository.ratings, RatingPair)) ==> UniqueBy(ratingRepository.ratings, RatingPair)
    {
      var user := userManager.FindByEmail(dto.email);
      if user.None? {
        return BadRequest([UserNotFound]);
      }
      if ratingRepository.GetRatingByUserAndReviewIds(user.value.id, dto.reviewId).Some? {
        return BadRequest([RatingAlreadyExists]);
      }
      var rating := Rating(newId, dto.value, user.value.id, dto.reviewId);
      ghost var before := ratingRepository.ratings;
      if UniqueBy(before, RatingPair) {
        AppendUnique(before, RatingPair, rating);
      }
      FirstAppend(before, rating, RatingOfUserAndReview(user.value.id, dto.reviewId));
      ratingRepository.CreateRating(rating);
      response := Ok(Some(rating));
    }

    /** `UpdateRating(dto)`: sets the value of the rating with that id; a missing id fails on the null rating. */
    method UpdateRating(dto: UpdateRatingRequestDto) returns (response: Response<Rating>)
      requires Valid()
      modifies ratingRepository
      ensures Valid()
      ensures old(ratingRepository.GetRating(dto.id)).None? ==>
        response == BadRequest([FailedToUpdateRating]) && ratingRepository.ratings == old(ratingRepository.ratings)
      ensures old(ratingRepository.GetRating(dto.id)).Some? ==>
        && response == Ok(Some(old(ratingRepository.GetRating(dto.id)).value.(value := dto.value)))
        && |ratingRepository.ratings| == |old(ratingRepository.ratings)|
        && forall k :: 0 <= k < |ratingRepository.ratings| ==>
             ratingRepository.ratings[k] ==
               if old(ratingRepository.ratings)[k].id == dto.id then old(ratingRepository.ratings)[k].(value := dto.value)
               else old(ratingRepository.ratings)[k]
    {
      var current := ratingRepository.GetRating(dto.id);
      if current.None? {
        return BadRequest([FailedToUpdateRating]);
      }
      ghost var before := ratingRepository.ratings;
      var updated := current.value.(value := dto.value);
      forall k | 0 <= k < |before| && before[k].id == dto.id ensures before[k] == current.value {
        KeyedRow(before, RatingKey, before[k], current.value);
      }
      ratingRepository.UpdateRating(updated);
      response := Ok(Some(updated));
    }

    /** `DeleteRating(id)`: removes exactly the rating with that id. */
    method DeleteRating(id: Guid) returns (response: Response<Rating>)
      requires Valid()
      modifies ratingRepository
      ensures Valid()
      ensures old(ratingRepository.GetRating(id)).None? ==>
        response == BadRequest([RatingRecordNotFound]) && ratingRepository.ratings == old(ratingRepository.ratings)
      ensures old(ratingRepository.GetRating(id)).Some? ==>
        && response == Status(OkCode)
        && exists i :: 0 <= i < |old(ratingRepository.ratings)| && old(ratingRepository.ratings)[i].id == id &&
             ratingRepository.ratings == old(ratingRepository.ratings)[..i] + old(ratingRepository.ratings)[i + 1..]
    {
      var rating := ratingRepository.GetRating(id);
      if rating.None? {
        return BadRequest([RatingRecordNotFound]);
      }
      ghost var before := ratingRepository.ratings;
      ghost var i :| 0 <= i < |before| && before[i] == rating.value && before[i].id == id;
      DropKey(before, RatingKey, RatingNotId(id), i);
      ratingRepository.DeleteRating(rating.value);
      response := Status(OkCode);
    }
  }
}
