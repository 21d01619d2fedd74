/**
 * The dialog editor's reserved-ID set: reserving the smallest free ID,
 * releasing one, and repairing duplicate IDs when a collection is loaded.
 */
module EditorIds {
  import opened DialogGraph
  import opened Sequences

  /** If every integer of [0, n) is in `s`, then `s` has at least n elements. */
  lemma {:induction false} PrefixRangeBound(s: set<int>, n: nat)
    requires forall k :: 0 <= k < n ==> k in s
    ensures n <= |s|
  {
    if n > 0 {
      PrefixRangeBound(s - {n - 1}, n - 1);
    }
  }

  /** The first integer `>= n` missing from `s`, all of [0, n) being in `s`. */
  function FreeFrom(s: set<int>, n: nat): (r: nat)
    requires forall k :: 0 <= k < n ==> k in s
    ensures n <= r && r !in s
    ensures forall k :: 0 <= k < r ==> k in s
    decreases |s| - n
  {
    if n in s then
      PrefixRangeBound(s, n + 1);
      FreeFrom(s, n + 1)
    else n
  }

  /**
   * Reserves the smallest non-negative ID not yet reserved; the result is
   * that ID and the enlarged set.
   */
  function ReserveDialogID(reserved: set<int>): (r: (int, set<int>))
    ensures 0 <= r.0 && r.0 !in reserved
    ensures forall k :: 0 <= k < r.0 ==> k in reserved
    ensures r.1 == reserved + {r.0}
  {
    var id := FreeFrom(reserved, 0);
    (id, reserved + {id})
  }

  /** Releases one ID; every other reservation stays. */
  function ReleaseDialogID(reserved: set<int>, id: int): (r: set<int>)
    ensures id !in r
    ensures forall x :: x != id ==> (x in r <==> x in reserved)
  {
    reserved - {id}
  }

  /** Releasing a freshly reserved ID gives back the original set. */
  lemma ReserveReleaseRoundTrip(reserved: set<int>)
    ensures var (id, after) := ReserveDialogID(reserved);
      ReleaseDialogID(after, id) == reserved
  {
  }

  /** Reservation is the minimum: no smaller free ID exists. */
  lemma ReserveIsLeastFree(reserved: set<int>, m: int)
    requires 0 <= m && m !in reserved
    ensures ReserveDialogID(reserved).0 <= m
  {
  }

  function Elems(s: seq<int>): set<int>
  {
    set x | x in s
  }

  /** The IDs of `visits`, in order. */
  function IdsOf(visits: seq<Dialog>): (r: seq<int>)
    ensures |r| == |visits| && forall k :: 0 <= k < |r| ==> r[k] == visits[k].id
  {
    seq(|visits|, k requires 0 <= k < |visits| => visits[k].id)
  }

  /** One repair step: a dialog whose ID is `oldId`, with `before` reserved, ends up with `newId`. */
  predicate RepairStep(before: set<int>, oldId: int, newId: int)
  {
    (oldId !in before ==> newId == oldId)
    && (oldId in before ==> newId == ReserveDialogID(before).0)
  }

  /** Every visited dialog so far took its new ID by a repair step from what was reserved before it. */
  predicate Repaired(reserved: set<int>, visits: seq<Dialog>, ids: seq<int>)
  {
    |ids| <= |visits|
    && forall k :: 0 <= k < |ids| ==> RepairStep(reserved + Elems(ids[..k]), visits[k].id, ids[k])
  }

  lemma {:induction false} RepairedAppend(reserved: set<int>, visits: seq<Dialog>, ids: seq<int>, next: int)
    requires Repaired(reserved, visits, ids) && |ids| < |visits|
    requires RepairStep(reserved + Elems(ids), visits[|ids|].id, next)
    ensures Repaired(reserved, visits, ids + [next])
  {
    var ids' := ids + [next];
    forall k | 0 <= k < |ids'|
      ensures RepairStep(reserved + Elems(ids'[..k]), visits[k].id, ids'[k])
    {
      assert ids'[..k] == ids[..k];
      if k == |ids| {
        assert ids[..k] == ids;
      }
    }
  }

  lemma ElemsAppend(ids: seq<int>, next: int)
    ensures Elems(ids + [next]) == Elems(ids) + {next}
  {
    assert forall x :: x in ids + [next] <==> x in ids || x == next;
  }

  /**
   * Repairs duplicate IDs on load.  The dialogs are visited root after root,
   * each root's non-redirection chain in pre-order; a visited dialog keeps its
   * ID when that ID is not reserved yet (and reserves it), and is otherwise
   * given a freshly reserved one.  `ids[k]` is the ID the k-th visited dialog
   * ends up with; `needsSaving` is whether the warning is logged.
   */
  method LoadFixReservedIDs(roots: seq<Dialog>, reserved: set<int>)
    returns (ids: seq<int>, reservedAfter: set<int>, needsSaving: bool)
    ensures |ids| == |Forest(roots)|
    ensures reservedAfter == reserved + Elems(ids)
    ensures forall k :: 0 <= k < |ids| ==> ids[k] in reservedAfter && ids[k] !in reserved
    ensures NoDuplicates(ids)
    ensures Repaired(reserved, Forest(roots), ids)
    ensures needsSaving <==> ids != IdsOf(Forest(roots))
  {
    ids, reservedAfter, needsSaving := RepairIds(Forest(roots), reserved);
  }

  /** What one repair step adds to the loop's invariant. */
  lemma RepairIdsStep(reserved: set<int>, visits: seq<Dialog>, ids: seq<int>, next: int)
    requires |ids| < |visits|
    requires forall k :: 0 <= k < |ids| ==> ids[k] !in reserved
    requires NoDuplicates(ids) && Repaired(reserved, visits, ids)
    requires RepairStep(reserved + Elems(ids), visits[|ids|].id, next)
    ensures next !in reserved && next !in Elems(ids)
    ensures NoDuplicates(ids + [next]) && Repaired(reserved, visits, ids + [next])
    ensures Elems(ids + [next]) == Elems(ids) + {next}
    ensures (ids + [next] == IdsOf(visits)[..|ids| + 1])
            <==> (ids == IdsOf(visits)[..|ids|] && next == visits[|ids|].id)
  {
    RepairedAppend(reserved, visits, ids, next);
    ElemsAppend(ids, next);
    assert IdsOf(visits)[..|ids| + 1] == IdsOf(visits)[..|ids|] + [visits[|ids|].id];
    if ids + [next] == IdsOf(visits)[..|ids| + 1] {
      assert (ids + [next])[..|ids|] == ids;
    }
  }

  /** The repair loop over the visited dialogs, in visit order. */
  method RepairIds(visits: seq<Dialog>, reserved: set<int>)
    returns (ids: seq<int>, reservedAfter: set<int>, needsSaving: bool)
    ensures |ids| == |visits|
    ensures reservedAfter == reserved + Elems(ids)
    ensures forall k :: 0 <= k < |ids| ==> ids[k] in reservedAfter && ids[k] !in reserved
    ensures NoDuplicates(ids)
    ensures Repaired(reserved, visits, ids)
    ensures needsSaving <==> ids != IdsOf(visits)
  {
    ids := [];
    reservedAfter := reserved;
    needsSaving := false;
    var s := 0;
    while s < |visits|
      invariant 0 <= s <= |visits| && |ids| == s
      invariant reservedAfter == reserved + Elems(ids)
      invariant forall k :: 0 <= k < s ==> ids[k] !in reserved
      invariant NoDuplicates(ids)
      invariant Repaired(reserved, visits, ids)
      invariant needsSaving <==> ids != IdsOf(visits)[..s]
    {
      var id := visits[s].id;
      var next: int;
      if id !in reservedAfter {
        next := id;
      } else {
        next := ReserveDialogID(reservedAfter).0;
        needsSaving := true;
      }
      RepairIdsStep(reserved, visits, ids, next);
      ids := ids + [next];
      reservedAfter := reservedAfter + {next};
      s := s + 1;
    }
    assert IdsOf(visits)[..s] == IdsOf(visits);
  }

  /**
   * Opening a collection with its IDs reserved: the editor starts with
   * nothing reserved and repairs the loaded dialogs first.  Every ID handed
   * out afterwards is then distinct from every repaired ID, and from every
   * loaded dialog's ID when no repair was needed.
   */
  method OpenCollection(roots: seq<Dialog>) returns (ids: seq<int>, reserved: set<int>, needsSaving: bool)
    ensures |ids| == |Forest(roots)| && NoDuplicates(ids) && reserved == Elems(ids)
    ensures !needsSaving ==> ids == IdsOf(Forest(roots))
    ensures ReserveDialogID(reserved).0 !in ids
    ensures !needsSaving ==> forall x :: x in Forest(roots) ==> x.id != ReserveDialogID(reserved).0
  {
    ids, reserved, needsSaving := LoadFixReservedIDs(roots, {});
    assert {} + Elems(ids) == Elems(ids);
    if !needsSaving {
      forall x | x in Forest(roots)
        ensures x.id != ReserveDialogID(reserved).0
      {
        var i :| 0 <= i < |Forest(roots)| && Forest(roots)[i] == x;
        assert ids[i] == x.id;
      }
    }
  }
}
