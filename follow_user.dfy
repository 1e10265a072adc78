/**
 * Following a user (`FollowUserUseCase.execute`): a user cannot follow
 * themself, cannot follow the same user twice, and otherwise one follow
 * record is created. The database's generated id and timestamp are passed in.
 */
module FollowUser {
  import opened Wrappers
  import opened Entities
  import opened Errors

  const CannotFollowYourself := "Cannot follow yourself"
  const AlreadyFollowing := "Already following this user"

  /** `findByFollowerAndFollowing`: the first follow record of the pair, if any. */
  function FindPair(follows: seq<Follow>, followerId: string, followingId: string): (r: Option<Follow>)
    ensures r.None? <==> forall i :: 0 <= i < |follows| ==>
              !(follows[i].followerId == followerId && follows[i].followingId == followingId)
    ensures r.Some? ==> r.value in follows && r.value.followerId == followerId && r.value.followingId == followingId
  {
    if |follows| == 0 then None
    else if follows[0].followerId == followerId && follows[0].followingId == followingId then Some(follows[0])
    else FindPair(follows[1..], followerId, followingId)
  }

  predicate Follows(follows: seq<Follow>, followerId: string, followingId: string) {
    exists i :: 0 <= i < |follows| && follows[i].followerId == followerId && follows[i].followingId == followingId
  }

  /** No pair is recorded twice. */
  predicate NoDuplicatePairs(follows: seq<Follow>) {
    forall i, j :: 0 <= i < j < |follows| ==>
      !(follows[i].followerId == follows[j].followerId && follows[i].followingId == follows[j].followingId)
  }

  /** `execute(followerId, followingId)`: the created follow or the error thrown, and the follows after it. */
  function FollowStep(follows: seq<Follow>, followerId: string, followingId: string, id: string, now: nat)
    : (Result<Follow, AppError>, seq<Follow>)
  {
    if followerId == followingId then (Err(ValidationError(CannotFollowYourself)), follows)
    else if FindPair(follows, followerId, followingId).Some? then (Err(ConflictError(AlreadyFollowing)), follows)
    else
      var follow := Follow(id, followerId, followingId, now);
      (Ok(follow), follows + [follow])
  }

  /**
   * Following oneself is a validation error, whatever is stored, and the
   * store is not touched; that check comes before the duplicate check.
   */
  lemma SelfFollowRejected(follows: seq<Follow>, userId: string, id: string, now: nat)
    ensures FollowStep(follows, userId, userId, id, now) == (Err(ValidationError(CannotFollowYourself)), follows)
  {
  }

  /**
   * Following a user twice is a conflict and changes nothing; otherwise the
   * one new record is appended, the pair is then followed, and whether any
   * other pair is followed is unchanged.
   */
  lemma FollowOutcome(follows: seq<Follow>, followerId: string, followingId: string, id: string, now: nat)
    requires followerId != followingId
    ensures var (r, after) := FollowStep(follows, followerId, followingId, id, now);
            (r.Err? <==> Follows(follows, followerId, followingId)) &&
            (r.Err? ==> r.error == ConflictError(AlreadyFollowing) && r.error.StatusCode() == 409 && after == follows) &&
            (r.Ok? ==>
               r.value == Follow(id, followerId, followingId, now) && after == follows + [r.value] &&
               forall a, b :: Follows(after, a, b) <==> Follows(follows, a, b) || (a == followerId && b == followingId))
  {
    var (r, after) := FollowStep(follows, followerId, followingId, id, now);
    if r.Ok? {
      forall a, b
        ensures Follows(after, a, b) <==> Follows(follows, a, b) || (a == followerId && b == followingId)
      {
        if Follows(follows, a, b) {
          var i :| 0 <= i < |follows| && follows[i].followerId == a && follows[i].followingId == b;
          assert after[i] == follows[i];
        }
        if a == followerId && b == followingId {
          assert after[|follows|] == r.value;
        }
        if Follows(after, a, b) {
          var i :| 0 <= i < |after| && after[i].followerId == a && after[i].followingId == b;
          if i < |follows| {
            assert follows[i] == after[i];
          }
        }
      }
    } else {
      var f := FindPair(follows, followerId, followingId).value;
      var i :| 0 <= i < |follows| && follows[i] == f;
    }
  }

  /** Following keeps every pair recorded at most once. */
  lemma FollowKeepsPairsUnique(follows: seq<Follow>, followerId: string, followingId: string, id: string, now: nat)
    requires NoDuplicatePairs(follows)
    ensures NoDuplicatePairs(FollowStep(follows, followerId, followingId, id, now).1)
  {
    var (r, after) := FollowStep(follows, followerId, followingId, id, now);
    if r.Ok? {
      forall i, j | 0 <= i < j < |after|
        ensures !(after[i].followerId == after[j].followerId && after[i].followingId == after[j].followingId)
      {
        if j == |follows| {
          assert after[i] == follows[i];
        }
      }
    }
  }

  /** The follow table. */
  class FollowRepository {
    var follows: seq<Follow>

    constructor ()
      ensures follows == []
    {
      follows := [];
    }

    method FindByFollowerAndFollowing(followerId: string, followingId: string) returns (found: Option<Follow>)
      ensures found == FindPair(follows, followerId, followingId)
    {
      found := FindPair(follows, followerId, followingId);
    }

    method Create(followerId: string, followingId: string, id: string, now: nat) returns (follow: Follow)
      modifies this
      ensures follow == Follow(id, followerId, followingId, now) && follows == old(follows) + [follow]
    {
      follow := Follow(id, followerId, followingId, now);
      follows := follows + [follow];
    }
  }

  /** Runs the two guards, then creates the follow. */
  method Execute(repository: FollowRepository, followerId: string, followingId: string, id: string, now: nat)
      returns (r: Result<Follow, AppError>)
    modifies repository
    ensures (r, repository.follows) == FollowStep(old(repository.follows), followerId, followingId, id, now)
  {
    if followerId == followingId {
      return Err(ValidationError(CannotFollowYourself));
    }
    var existingFollow := repository.FindByFollowerAndFollowing(followerId, followingId);
    if existingFollow.Some? {
      return Err(ConflictError(AlreadyFollowing));
    }
    var follow := repository.Create(followerId, followingId, id, now);
    r := Ok(follow);
  }
}
