/**
 * The like, rating and review repositories of `DAL.Auth` over in-memory
 * tables. A query is the corresponding `Where` or `FirstOrDefault` on the
 * table; a write takes effect at once (`SaveChanges` is not modelled apart).
 * Each table keeps its `Id` column a primary key.
 */
module Repositories {
  import opened Wrappers
  import opened Tables
  import opened Models

  class LikeRepository {
    var likes: seq<Like>

    constructor ()
      ensures likes == []
    {
      likes := [];
    }

    ghost predicate Valid()
      reads this
    {
      UniqueBy(likes, LikeKey)
    }

    /** The first like with this id, None when there is none. */
    function GetLike(id: Guid): (r: Option<Like>)
      reads this
      ensures r.None? <==> forall k :: 0 <= k < |likes| ==> likes[k].id != id
      ensures r.Some? ==> r.value in likes && r.value.id == id
    {
      First(likes, LikeHasId(id))
    }

    /** The likes of this review, in table order. */
    function GetLikesByReviewId(reviewId: Guid): (r: seq<Like>)
      reads this
      ensures forall x :: x in r <==> x in likes && x.reviewId == reviewId
      ensures forall k :: 0 <= k < |r| ==> r[k].reviewId == reviewId
    {
      Filter(likes, LikeOfReview(reviewId))
    }

    /** The first like this user gave this review, None when there is none. */
    function GetLikeByUserAndReviewIds(userId: UserId, reviewId: Guid): (r: Option<Like>)
      reads this
      ensures r.None? <==> forall k :: 0 <= k < |likes| ==> !(likes[k].userId == userId && likes[k].reviewId == reviewId)
      ensures r.Some? ==> r.value.userId == userId && r.value.reviewId == reviewId
      ensures r.Some? ==> exists i :: 0 <= i < |likes| && likes[i] == r.value &&
                                      (forall j :: 0 <= j < i ==> !(likes[j].userId == userId && likes[j].reviewId == reviewId))
    {
      First(likes, LikeOfUserAndReview(userId, reviewId))
    }

    method CreateLike(like: Like)
      requires Valid() && FreshKey(likes, LikeKey, like.id)
      modifies this
      ensures Valid() && likes == old(likes) + [like]
    {
      AppendUnique(likes, LikeKey, like);
      likes := likes + [like];
    }

    /** Deletes the row with the like's id. */
    method DeleteLike(like: Like)
      requires Valid()
      modifies this
      ensures Valid() && likes == Filter(old(likes), LikeNotId(like.id))
    {
      FilterUnique(likes, LikeNotId(like.id), LikeKey);
      likes := Filter(likes, LikeNotId(like.id));
    }
  }

  class RatingRepository {
    var ratings: seq<Rating>

    constructor ()
      ensures ratings == []
    {
      ratings := [];
    }

    ghost predicate Valid()
      reads this
    {
      UniqueBy(ratings, RatingKey)
    }

    /** The first rating with this id, None when there is none. */
    function GetRating(id: Guid): (r: Option<Rating>)
      reads this
      ensures r.None? <==> forall k :: 0 <= k < |ratings| ==> ratings[k].id != id
      ensures r.Some? ==> r.value in ratings && r.value.id == id
    {
      First(ratings, RatingHasId(id))
    }

    /** The ratings of this review, in table order. */
    function GetRatingsByReviewId(reviewId: Guid): (r: seq<Rating>)
      reads this
      ensures forall x :: x in r <==> x in ratings && x.reviewId == reviewId
      ensures forall k :: 0 <= k < |r| ==> r[k].reviewId == reviewId
    {
      Filter(ratings, RatingOfReview(reviewId))
    }

    /** The first rating this user gave this review, None when there is none. */
    function GetRatingByUserAndReviewIds(userId: UserId, reviewId: Guid): (r: Option<Rating>)
      reads this
      ensures r.None? <==> forall k :: 0 <= k < |ratings| ==> !(ratings[k].userId == userId && ratings[k].reviewId == reviewId)
      ensures r.Some? ==> r.value.userId == userId && r.value.reviewId == reviewId
      ensures r.Some? ==> exists i :: 0 <= i < |ratings| && ratings[i] == r.value &&
                                      (forall j :: 0 <= j < i ==> !(ratings[j].userId == userId && ratings[j].reviewId == reviewId))
    {
      First(ratings, RatingOfUserAndReview(userId, reviewId))
    }

    method CreateRating(rating: Rating)
      requires Valid() && FreshKey(ratings, RatingKey, rating.id)
      modifies this
      ensures Valid() && ratings == old(ratings) + [rating]
    {
      AppendUnique(ratings, RatingKey, rating);
      ratings := ratings + [rating];
    }

    /** Writes the row with the rating's id. */
    method UpdateRating(rating: Rating)
      requires Valid()
      modifies this
      ensures Valid() && ratings == ReplaceWhere(old(ratings), RatingHasId(rating.id), rating)
    {
      ReplaceUnique(ratings, RatingHasId(rating.id), rating, RatingKey);
      ratings := ReplaceWhere(ratings, RatingHasId(rating.id), rating);
    }

    /** Deletes the row with the rating's id. */
    method DeleteRating(rating: Rating)
      requires Valid()
      modifies this
      ensures Valid() && ratings == Filter(old(ratings), RatingNotId(rating.id))
    {
      FilterUnique(ratings, RatingNotId(rating.id), RatingKey);
      ratings := Filter(ratings, RatingNotId(rating.id));
    }
  }

  /** `IReviewRepository`. */
  class ReviewRepository {
    var reviews: seq<Review>

    constructor ()
      ensures reviews == []
    {
      reviews := [];
    }

    ghost predicate Valid()
      reads this
    {
      UniqueBy(reviews, ReviewKey)
    }

    function GetAllReviews(): seq<Review>
      reads this
    {
      reviews
    }

    /** The reviews this user wrote, in table order. */
    function GetReviewsByUserId(userId: UserId): (r: seq<Review>)
      reads this
      ensures forall x :: x in r <==> x in reviews && x.userId == userId
      ensures forall k :: 0 <= k < |r| ==> r[k].userId == userId
    {
      Filter(reviews, ReviewOfUser(userId))
    }

    /** The first review with this id, None when there is none. */
    function GetByReviewId(id: Guid): (r: Option<Review>)
      reads this
      ensures r.None? <==> forall k :: 0 <= k < |reviews| ==> reviews[k].id != id
      ensures r.Some? ==> r.value in reviews && r.value.id == id
    {
      First(reviews, ReviewHasId(id))
    }

    method CreateReview(review: Review)
      requires Valid() && FreshKey(reviews, ReviewKey, review.id)
      modifies this
      ensures Valid() && reviews == old(reviews) + [review]
    {
      AppendUnique(reviews, ReviewKey, review);
      reviews := reviews + [review];
    }

    /** Writes the row with the review's id. */
    method UpdateReview(review: Review)
      requires Valid()
      modifies this
      ensures Valid() && reviews == ReplaceWhere(old(reviews), ReviewHasId(review.id), review)
    {
      ReplaceUnique(reviews, ReviewHasId(review.id), review, ReviewKey);
      reviews := ReplaceWhere(reviews, ReviewHasId(review.id), review);
    }

    /** Deletes the row with the review's id. */
    method DeleteReview(review: Review)
      requires Valid()
      modifies this
      ensures Valid() && reviews == Filter(old(reviews), ReviewNotId(review.id))
    {
      FilterUnique(reviews, ReviewNotId(review.id), ReviewKey);
      reviews := Filter(reviews, ReviewNotId(review.id));
    }
  }
}
