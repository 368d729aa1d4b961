/**
 * `LikeController`: a user likes a review at most once, a like is deleted by
 * its id, and the like count of a review is the number of its like rows.
 */
module LikeApi {
  import opened Wrappers
  import opened Tables
  import opened Models
  import opened Identity
  import opened Repositories

  datatype CreateLikeRequestDto = CreateLikeRequestDto(email: string, reviewId: Guid)
  datatype GetLikeRequestDto = GetLikeRequestDto(email: string, reviewId: Guid)

  /** The (user, review) pair a like is about. */
  function LikePair(l: Like): (UserId, Guid) {
    (l.userId, l.reviewId)
  }

  /** The positions of the like table that belong to the review. */
  function LikesOf(likes: seq<Like>, reviewId: Guid): set<int> {
    set k | 0 <= k < |likes| && likes[k].reviewId == reviewId
  }

  class LikeController {
    const likeRepository: LikeRepository
    const userManager: UserManager

    constructor (likeRepository: LikeRepository, userManager: UserManager)
      ensures this.likeRepository == likeRepository && this.userManager == userManager
    {
      this.likeRepository := likeRepository;
      this.userManager := userManager;
    }

    ghost predicate Valid()
      reads likeRepository
    {
      likeRepository.Valid()
    }

    /** `GetAllReviewLikes(id)`: the number of likes of the review. */
    function GetAllReviewLikes(reviewId: Guid): (r: Response<nat>)
      reads likeRepository
      ensures r.Body? && r.code == OkCode && r.isSuccess && r.errors == [] && r.data.Some?
      ensures r.data.value == |LikesOf(likeRepository.likes, reviewId)|
    {
      LikeCount(likeRepository.likes, reviewId);
      Ok(Some(|likeRepository.GetLikesByReviewId(reviewId)|))
    }

    /** `IsLiked(dto)`: the user's like of the review, if there is one. */
    function IsLiked(dto: GetLikeRequestDto): (r: Response<Like>)
      reads userManager, likeRepository
      ensures var user := userManager.FindByEmail(dto.email);
        && (user.None? <==> r == BadRequest([UserNotFound]))
        && (user.Some? ==> r.Body? && r.code == OkCode && r.isSuccess && r.errors == [])
        && (user.Some? && r.data.Some? ==>
              r.data.value in likeRepository.likes && LikePair(r.data.value) == (user.value.id, dto.reviewId))
        && (user.Some? ==> (r.data.None? <==>
              forall k :: 0 <= k < |likeRepository.likes| ==> LikePair(likeRepository.likes[k]) != (user.value.id, dto.reviewId)))
    {
      match userManager.FindByEmail(dto.email)
      case None => BadRequest([UserNotFound])
      case Some(user) => Ok(likeRepository.GetLikeByUserAndReviewIds(user.id, dto.reviewId))
    }

    /** `CreateLike(dto)`: refuses an unknown email and a second like of the same review by the same user. */
    method CreateLike(dto: CreateLikeRequestDto, newId: Guid) returns (response: Response<Like>)
      requires Valid() && FreshKey(likeRepository.likes, LikeKey, newId)
      modifies likeRepository
      ensures Valid()
      ensures var user := userManager.FindByEmail(dto.email);
        user.None? ==> response == BadRequest([UserNotFound]) && likeRepository.likes == old(likeRepository.likes)
      ensures var user := userManager.FindByEmail(dto.email);
        user.Some? && old(likeRepository.GetLikeByUserAndReviewIds(user.value.id, dto.reviewId)).Some? ==>
          response == BadRequest([LikeAlreadyExists]) && likeRepository.likes == old(likeRepository.likes)
      ensures var user := userManager.FindByEmail(dto.email);
        user.Some? && old(likeRepository.GetLikeByUserAndReviewIds(user.value.id, dto.reviewId)).None? ==>
          var like := Like(newId, user.value.id, dto.reviewId);
          response == Ok(Some(like)) && likeRepository.likes == old(likeRepository.likes) + [like]
      // afterwards `IsLiked` answers with the new like, and the review has one like more
      ensures response.code == OkCode ==>
        && IsLiked(GetLikeRequestDto(dto.email, dto.reviewId)) == response
        && GetAllReviewLikes(dto.reviewId).data.value == old(GetAllReviewLikes(dto.reviewId)).data.value + 1
      // sequentially, at most one like per user and review
      ensures old(UniqueBy(likeRepository.likes, LikePair)) ==> UniqueBy(likeRepository.likes, LikePair)
    {
      var user := userManager.FindByEmail(dto.email);
      if user.None? {
        return BadRequest([UserNotFound]);
      }
      if likeRepository.GetLikeByUserAndReviewIds(user.value.id, dto.reviewId).Some? {
        return BadRequest([LikeAlreadyExists]);
      }
      var like := Like(newId, user.value.id, dto.reviewId);
      ghost var before := likeRepository.likes;
      if UniqueBy(before, LikePair) {
        AppendUnique(before, LikePair, like);
      }
      FirstAppend(before, like, LikeOfUserAndReview(user.value.id, dto.reviewId));
      LikesAppend(before, like);
      likeRepository.CreateLike(like);
      response := Ok(Some(like));
    }

    /** `DeleteLike(id)`: removes exactly the like with that id. */
    method DeleteLike(id: Guid) returns (response: Response<Like>)
      requires Valid()
      modifies likeRepository
      ensures Valid()
      ensures old(likeRepository.GetLike(id)).None? ==>
        response == BadRequest([LikeNotFound]) && likeRepository.likes == old(likeRepository.likes)
      ensures old(likeRepository.GetLike(id)).Some? ==>
        && response == Status(OkCode)
        && exists i :: 0 <= i < |old(likeRepository.likes)| && old(likeRepository.likes)[i].id == id &&
             likeRepository.likes == old(likeRepository.likes)[..i] + old(likeRepository.likes)[i + 1..]
    {
      var like := likeRepository.GetLike(id);
      if like.None? {
        return BadRequest([LikeNotFound]);
      }
      ghost var before := likeRepository.likes;
      ghost var i :| 0 <= i < |before| && before[i] == like.value && before[i].id == id;
      DropKey(before, LikeKey, LikeNotId(id), i);
      likeRepository.DeleteLike(like.value);
      response := Status(OkCode);
    }
  }

  /** The positions of a review's likes after an append: the old ones, and the new last one if it is the review's. */
  lemma LikesSnoc(likes: seq<Like>, like: Like, reviewId: Guid)
    ensures LikesOf(likes + [like], reviewId) ==
      LikesOf(likes, reviewId) + if like.reviewId == reviewId then {|likes|} else {}
  {
    var s := likes + [like];
    forall k ensures k in LikesOf(s, reviewId) <==>
      k in LikesOf(likes, reviewId) + if like.reviewId == reviewId then {|likes|} else {}
    {
      if 0 <= k < |likes| {
        assert s[k] == likes[k];
      }
    }
  }

  /** A like appended to the table counts for its own review only. */
  lemma LikesAppend(likes: seq<Like>, like: Like)
    ensures |LikesOf(likes + [like], like.reviewId)| == |LikesOf(likes, like.reviewId)| + 1
    ensures forall r :: r != like.reviewId ==> LikesOf(likes + [like], r) == LikesOf(likes, r)
  {
    LikesSnoc(likes, like, like.reviewId);
    assert |likes| !in LikesOf(likes, like.reviewId);
    forall r | r != like.reviewId ensures LikesOf(likes + [like], r) == LikesOf(likes, r) {
      LikesSnoc(likes, like, r);
    }
  }

  /** The like count of `GetLikesByReviewId` agrees with the positions of the review's likes. */
  lemma LikeCount(likes: seq<Like>, reviewId: Guid)
    ensures |Filter(likes, LikeOfReview(reviewId))| == |LikesOf(likes, reviewId)|
  {
    FilterCount(likes, LikeOfReview(reviewId));
    assert Positions(likes, LikeOfReview(reviewId)) == LikesOf(likes, reviewId);
  }
}
