/**
 * The dialog editor's operations on the graph itself: gathering a chain,
 * deleting the links to a dialog, creating / linking / clearing an option's
 * target, reordering options and validating names.
 */
module EditorGraph {
  import opened Wrappers
  import opened DialogGraph
  import opened Sequences
  import opened EditorIds
  import ConversationEngine

  // ---------------------------------------------------------------------
  // Chain gather

  /**
   * Appends to `dl` every dialog of `d`'s non-redirection chain that is not
   * in it yet, in pre-order.
   */
  function GetAllDialogsInChain(dl: seq<Dialog>, d: Dialog): (r: seq<Dialog>)
    ensures |dl| <= |r| && r[..|dl|] == dl
    ensures d in r
    ensures forall x :: x in r <==> x in dl || x in Chain(d)
    ensures NoDuplicates(dl) ==> NoDuplicates(r)
    decreases d, 1, 0
  {
    var withD := if d in dl then dl else dl + [d];
    assert withD[..|dl|] == dl;
    var r := GatherFrom(withD, d, 0);
    assert r[..|withD|][..|dl|] == r[..|dl|];
    assert d in withD;
    assert r[..|withD|] == withD;
    assert d in r[..|withD|];
    r
  }

  /** The gather over options `i..` of `d`. */
  function GatherFrom(dl: seq<Dialog>, d: Dialog, i: nat): (r: seq<Dialog>)
    requires i <= |d.options|
    ensures |dl| <= |r| && r[..|dl|] == dl
    ensures forall x :: x in r <==> x in dl || x in ChainFrom(d, i)
    ensures NoDuplicates(dl) ==> NoDuplicates(r)
    decreases d, 0, |d.options| - i
  {
    if i == |d.options| then dl
    else
      match d.options[i].next
      case Child(c) =>
        var mid := GetAllDialogsInChain(dl, c);
        var r := GatherFrom(mid, d, i + 1);
        assert r[..|mid|][..|dl|] == r[..|dl|];
        r
      case _ => GatherFrom(dl, d, i + 1)
  }

  /**
   * Gathering from `dl` appends exactly the chain when nothing would be
   * skipped as already present.
   */
  lemma {:induction false} GatherAppendsChain(dl: seq<Dialog>, d: Dialog)
    requires NoDuplicates(dl + Chain(d))
    ensures GetAllDialogsInChain(dl, d) == dl + Chain(d)
    decreases d, 1
  {
    assert (dl + Chain(d))[|dl|] == d;
    assert forall j :: 0 <= j < |dl| ==> dl[j] == (dl + Chain(d))[j] && dl[j] != d;
    assert dl + [d] + ChainFrom(d, 0) == dl + Chain(d);
    GatherFromAppendsChain(dl + [d], d, 0);
  }

  lemma {:induction false} GatherFromAppendsChain(dl: seq<Dialog>, d: Dialog, i: nat)
    requires i <= |d.options|
    requires NoDuplicates(dl + ChainFrom(d, i))
    ensures GatherFrom(dl, d, i) == dl + ChainFrom(d, i)
    decreases d, 0, |d.options| - i
  {
    if i < |d.options| {
      match d.options[i].next
      case Child(c) =>
        var whole := dl + ChainFrom(d, i);
        assert whole == (dl + Chain(c)) + ChainFrom(d, i + 1);
        assert whole[..|dl + Chain(c)|] == dl + Chain(c);
        NoDuplicatesPrefix(whole, |dl + Chain(c)|);
        GatherAppendsChain(dl, c);
        GatherFromAppendsChain(dl + Chain(c), d, i + 1);
      case _ =>
        GatherFromAppendsChain(dl, d, i + 1);
    }
  }

  /**
   * When the chain's IDs are unique, gathering from an empty list yields
   * exactly the pre-order chain.
   */
  lemma GatherIsChain(d: Dialog)
    requires UniqueIds(Chain(d))
    ensures GetAllDialogsInChain([], d) == Chain(d)
  {
    assert [] + Chain(d) == Chain(d);
    GatherAppendsChain([], d);
  }

  // ---------------------------------------------------------------------
  // Chain structure

  /** A dialog of a chain other than its start lies in the chain of one of the start's children. */
  lemma {:induction false} ChainFromMember(d: Dialog, i: nat, x: Dialog)
    requires i <= |d.options| && x in ChainFrom(d, i)
    ensures exists j :: i <= j < |d.options| && d.options[j].next.Child? && x in Chain(d.options[j].next.dialog)
    decreases |d.options| - i
  {
    if i < |d.options| {
      match d.options[i].next
      case Child(c) =>
        if x !in Chain(c) {
          ChainFromMember(d, i + 1, x);
        }
      case _ =>
        ChainFromMember(d, i + 1, x);
    }
  }

  /** Whether option `o` links to the dialog with ID `t`, normally or by redirection. */
  predicate LinksTo(o: DialogOption, t: int)
  {
    match o.next
    case NoLink => false
    case Child(c) => c.id == t
    case Redirect(id) => id == t
  }

  /** No option of any dialog in `d`'s chain links to `t`. */
  predicate NoLinkInChain(d: Dialog, t: int)
  {
    forall x :: x in Chain(d) ==> forall k :: 0 <= k < |x.options| ==> !LinksTo(x.options[k], t)
  }

  // ---------------------------------------------------------------------
  // Recursive link deletion, with redirections never followed

  /**
   * Cuts, in `current`'s chain, every link to the dialog with ID `toDelete`;
   * with `releaseIfNotLoop` every link of `current` is cut.  A normal link to
   * the deleted dialog takes its subtree with it; redirection links are cut
   * but never followed.
   */
  function DeleteRecurseDialog(toDelete: int, current: Dialog, releaseIfNotLoop: bool): (r: Dialog)
    ensures r.id == current.id && r.title == current.title && r.text == current.text
    ensures r.tag == current.tag && r.requirements == current.requirements && r.mode == current.mode
    ensures |r.options| == |current.options|
    ensures forall k :: 0 <= k < |r.options| ==> r.options[k] == CutOption(toDelete, current, releaseIfNotLoop, k)
    decreases current, 2, 0
  {
    current.(options := CutFrom(toDelete, current, releaseIfNotLoop, 0))
  }

  function CutFrom(toDelete: int, current: Dialog, release: bool, i: nat): (r: seq<DialogOption>)
    requires i <= |current.options|
    ensures |r| == |current.options| - i
    ensures forall k :: 0 <= k < |r| ==> r[k] == CutOption(toDelete, current, release, i + k)
    decreases current, 1, |current.options| - i
  {
    if i == |current.options| then []
    else
      var rest := CutFrom(toDelete, current, release, i + 1);
      var r := [CutOption(toDelete, current, release, i)] + rest;
      assert forall k :: 0 < k < |r| ==> r[k] == rest[k - 1];
      r
  }

  /** Option `i` of `current` after the deletion pass. */
  function CutOption(toDelete: int, current: Dialog, release: bool, i: nat): (r: DialogOption)
    requires i < |current.options|
    ensures var o := current.options[i];
      r.text == o.text && r.tag == o.tag && r.notifications == o.notifications
    decreases current, 0, 0
  {
    var o := current.options[i];
    match o.next
    case NoLink => o
    case Child(c) =>
      if c.id == toDelete || release then o.(next := NoLink)
      else o.(next := Child(DeleteRecurseDialog(toDelete, c, false)))
    case Redirect(id) =>
      if id == toDelete || release then o.(next := NoLink)
      else o
  }

  /** After deleting `t` from a chain, no dialog left in the chain links to `t`. */
  lemma {:induction false} DeleteRecurseRemovesLinks(t: int, d: Dialog)
    ensures NoLinkInChain(DeleteRecurseDialog(t, d, false), t)
    decreases d
  {
    var r := DeleteRecurseDialog(t, d, false);
    forall x | x in Chain(r)
      ensures forall k :: 0 <= k < |x.options| ==> !LinksTo(x.options[k], t)
    {
      if x != r {
        ChainFromMember(r, 0, x);
        var j :| 0 <= j < |r.options| && r.options[j].next.Child? && x in Chain(r.options[j].next.dialog);
        var c := d.options[j].next.dialog;
        DeleteRecurseRemovesLinks(t, c);
      }
    }
  }

  /** With `releaseIfNotLoop`, every link of the dialog is cut. */
  lemma DeleteRecurseReleaseCutsAll(t: int, d: Dialog)
    ensures forall k :: 0 <= k < |d.options| ==> DeleteRecurseDialog(t, d, true).options[k].next == NoLink
  {
  }

  /** A chain with no link to `t` is left exactly as it was. */
  lemma {:induction false} DeleteRecurseNoOp(t: int, d: Dialog)
    requires NoLinkInChain(d, t)
    ensures DeleteRecurseDialog(t, d, false) == d
    decreases d
  {
    var r := DeleteRecurseDialog(t, d, false);
    forall k | 0 <= k < |d.options|
      ensures r.options[k] == d.options[k]
    {
      assert !LinksTo(d.options[k], t);
      match d.options[k].next
      case Child(c) =>
        assert c in Chain(c);
        assert NoLinkInChain(c, t) by {
          forall x | x in Chain(c)
            ensures forall m :: 0 <= m < |x.options| ==> !LinksTo(x.options[m], t)
          {
            ChainContainsChild(d, k, x);
          }
        }
        DeleteRecurseNoOp(t, c);
      case _ =>
    }
    assert r.options == d.options;
  }

  /** The chain of a child is part of its parent's chain. */
  lemma ChainContainsChild(d: Dialog, k: nat, x: Dialog)
    requires k < |d.options| && d.options[k].next.Child? && x in Chain(d.options[k].next.dialog)
    ensures x in Chain(d)
  {
    ChainFromContainsChild(d, 0, k, x);
  }

  lemma {:induction false} ChainFromContainsChild(d: Dialog, i: nat, k: nat, x: Dialog)
    requires i <= k < |d.options| && d.options[k].next.Child? && x in Chain(d.options[k].next.dialog)
    ensures x in ChainFrom(d, i)
    decreases k - i
  {
    if i < k {
      ChainFromContainsChild(d, i + 1, k, x);
    }
  }

  /** Deleting twice is deleting once. */
  lemma DeleteRecurseIdempotent(t: int, d: Dialog)
    ensures DeleteRecurseDialog(t, DeleteRecurseDialog(t, d, false), false) == DeleteRecurseDialog(t, d, false)
  {
    DeleteRecurseRemovesLinks(t, d);
    DeleteRecurseNoOp(t, DeleteRecurseDialog(t, d, false));
  }

  /** `x` lies in a subtree that a normal link to the dialog with ID `t` in `d`'s chain owns. */
  predicate BelowCut(d: Dialog, t: int, x: Dialog)
  {
    exists y, j :: y in Chain(d) && 0 <= j < |y.options| && y.options[j].next.Child?
      && y.options[j].next.dialog.id == t && x in Chain(y.options[j].next.dialog)
  }

  /**
   * Frame of the deletion: a dialog of the chain that is not cut away with a
   * deleted subtree is still in the chain afterwards, with its own links
   * edited by the same deletion.
   */
  lemma {:induction false} DeleteRecurseKeeps(t: int, d: Dialog, x: Dialog)
    requires x in Chain(d) && !BelowCut(d, t, x)
    ensures DeleteRecurseDialog(t, x, false) in Chain(DeleteRecurseDialog(t, d, false))
    decreases d
  {
    var r := DeleteRecurseDialog(t, d, false);
    if x == d {
      assert r in Chain(r);
    } else {
      assert x in ChainFrom(d, 0);
      ChainFromMember(d, 0, x);
      var j :| 0 <= j < |d.options| && d.options[j].next.Child? && x in Chain(d.options[j].next.dialog);
      var c := d.options[j].next.dialog;
      assert d in Chain(d);
      assert c.id != t;
      forall y | y in Chain(c)
        ensures y in Chain(d)
      {
        ChainContainsChild(d, j, y);
      }
      assert !BelowCut(c, t, x);
      DeleteRecurseKeeps(t, c, x);
      assert r.options[j].next == Child(DeleteRecurseDialog(t, c, false));
      ChainContainsChild(r, j, DeleteRecurseDialog(t, x, false));
    }
  }

  /** The number of dialogs in a tree. */
  function Size(d: Dialog): nat
    decreases d, 1
  {
    1 + SizeFrom(d, 0)
  }

  function SizeFrom(d: Dialog, i: nat): nat
    requires i <= |d.options|
    decreases d, 0, |d.options| - i
  {
    if i == |d.options| then 0
    else
      match d.options[i].next
      case Child(c) => Size(c) + SizeFrom(d, i + 1)
      case _ => SizeFrom(d, i + 1)
  }

  lemma {:induction false} ChildSmaller(d: Dialog, i: nat, j: nat)
    requires i <= j < |d.options| && d.options[j].next.Child?
    ensures Size(d.options[j].next.dialog) <= SizeFrom(d, i)
    decreases j - i
  {
    if i < j {
      ChildSmaller(d, i + 1, j);
    }
  }

  /** Every dialog of a chain is at most as large as the chain's head. */
  lemma {:induction false} ChainSmaller(d: Dialog, x: Dialog)
    requires x in Chain(d)
    ensures Size(x) <= Size(d)
    decreases d
  {
    if x != d {
      assert x in ChainFrom(d, 0);
      ChainFromMember(d, 0, x);
      var j :| 0 <= j < |d.options| && d.options[j].next.Child? && x in Chain(d.options[j].next.dialog);
      ChainSmaller(d.options[j].next.dialog, x);
      ChildSmaller(d, 0, j);
    }
  }

  /**
   * With distinct IDs in the chain, the owner of a normal link to `t` is not
   * itself inside a subtree that a normal link to `t` owns.
   */
  lemma OwnerNotBelowCut(d: Dialog, x: Dialog, k: nat)
    requires x in Chain(d) && UniqueIds(Chain(d))
    requires k < |x.options| && x.options[k].next.Child?
    ensures !BelowCut(d, x.options[k].next.dialog.id, x)
  {
    var c := x.options[k].next.dialog;
    if BelowCut(d, c.id, x) {
      var y, j :| y in Chain(d) && 0 <= j < |y.options| && y.options[j].next.Child?
        && y.options[j].next.dialog.id == c.id && x in Chain(y.options[j].next.dialog);
      var c' := y.options[j].next.dialog;
      assert c' in Chain(c');
      ChainContainsChild(y, j, c');
      ChainTransitive(d, y, c');
      assert c in Chain(c);
      ChainContainsChild(x, k, c);
      ChainTransitive(d, x, c);
      var s := Chain(d);
      var a :| 0 <= a < |s| && s[a] == c;
      var b :| 0 <= b < |s| && s[b] == c';
      assert a == b;
      ChainSmaller(c, x);
      ChildSmaller(x, 0, k);
      assert false;
    }
  }

  /**
   * Deletes a dialog from the active dialog's chain (`None` when no dialog is
   * active) and releases its ID.
   */
  function DeleteCleanupDialog(active: Option<Dialog>, toDelete: int, reserved: set<int>): (r: (Option<Dialog>, set<int>))
    ensures r.0.Some? <==> active.Some?
    ensures active.Some? ==> r.0.value.id == active.value.id && NoLinkInChain(r.0.value, toDelete)
    ensures active.Some? ==> r.0 == Some(DeleteRecurseDialog(toDelete, active.value, false))
    ensures r.1 == ReleaseDialogID(reserved, toDelete)
  {
    match active
    case None => (None, ReleaseDialogID(reserved, toDelete))
    case Some(d) =>
      DeleteRecurseRemovesLinks(toDelete, d);
      (Some(DeleteRecurseDialog(toDelete, d, false)), ReleaseDialogID(reserved, toDelete))
  }

  // ---------------------------------------------------------------------
  // Recursive link deletion as written: redirections followed

  /**
   * The deletion pass as the editor performs it, where a link that neither
   * targets the deleted dialog nor is being released is recursed into even
   * when it is a redirection.  A redirection's target is found through the ID
   * search over `roots`.  Recursion depth is bounded by `fuel`; `None` means
   * the fuel ran out.
   */
  function DeleteRecurseAsWritten(roots: seq<Dialog>, toDelete: int, current: Dialog, release: bool, fuel: nat): (r: Option<Dialog>)
    ensures r.Some? ==> r.value.id == current.id && |r.value.options| == |current.options|
    ensures fuel == 0 ==> r.None?
    decreases fuel, 0, 0
  {
    if fuel == 0 then None
    else
      match CutDownAsWritten(roots, toDelete, current, release, |current.options|, fuel - 1)
      case None => None
      case Some(opts) => Some(current.(options := opts))
  }

  /** Options `[0, n)` of `current`, processed from the last to the first. */
  function CutDownAsWritten(roots: seq<Dialog>, toDelete: int, current: Dialog, release: bool, n: nat, fuel: nat): (r: Option<seq<DialogOption>>)
    requires n <= |current.options|
    ensures r.Some? ==> |r.value| == n
    decreases fuel, 1, n
  {
    if n == 0 then Some([])
    else
      var o := current.options[n - 1];
      var processed: Option<DialogOption> :=
        match o.next
        case NoLink => Some(o)
        case Child(c) =>
          if c.id == toDelete || release then
            (if DeleteRecurseAsWritten(roots, toDelete, c, true, fuel).None? then None else Some(o.(next := NoLink)))
          else
            (match DeleteRecurseAsWritten(roots, toDelete, c, false, fuel)
             case None => None
             case Some(c') => Some(o.(next := Child(c'))))
        case Redirect(id) =>
          if id == toDelete || release then Some(o.(next := NoLink))
          else
            (match ConversationEngine.GetDialog(roots, id)
             case None => Some(o)
             case Some(target) =>
               if DeleteRecurseAsWritten(roots, toDelete, target, false, fuel).None? then None else Some(o));
      if processed.None? then None
      else
        match CutDownAsWritten(roots, toDelete, current, release, n - 1, fuel)
        case None => None
        case Some(prefix) => Some(prefix + [processed.value])
  }

  /** Whenever the pass as written finishes, it leaves what the corrected pass leaves. */
  lemma {:induction false} AsWrittenAgrees(roots: seq<Dialog>, t: int, d: Dialog, release: bool, fuel: nat)
    requires DeleteRecurseAsWritten(roots, t, d, release, fuel).Some?
    ensures DeleteRecurseAsWritten(roots, t, d, release, fuel).value == DeleteRecurseDialog(t, d, release)
    decreases fuel, 0, 0
  {
    CutDownAgrees(roots, t, d, release, |d.options|, fuel - 1);
    var r := DeleteRecurseDialog(t, d, release);
    assert r.options == CutFrom(t, d, release, 0);
  }

  lemma {:induction false} CutDownAgrees(roots: seq<Dialog>, t: int, d: Dialog, release: bool, n: nat, fuel: nat)
    requires n <= |d.options|
    requires CutDownAsWritten(roots, t, d, release, n, fuel).Some?
    ensures CutDownAsWritten(roots, t, d, release, n, fuel).value == CutFrom(t, d, release, 0)[..n]
    decreases fuel, 1, n
  {
    if n > 0 {
      CutDownAgrees(roots, t, d, release, n - 1, fuel);
      assert CutFrom(t, d, release, 0)[..n] == CutFrom(t, d, release, 0)[..n - 1] + [CutOption(t, d, release, n - 1)];
      var o := d.options[n - 1];
      if o.next.Child? && !(o.next.dialog.id == t || release) {
        AsWrittenAgrees(roots, t, o.next.dialog, false, fuel);
      }
    }
  }

  /**
   * A root A (ID 0) whose only option leads to B (ID 1), which redirects back
   * to A: deleting any dialog other than A and B from A's chain never
   * finishes as written, whatever the recursion bound, while the corrected
   * pass leaves A as it is.
   */
  lemma {:induction false} DeleteRecurseLoopDiverges(t: int, fuel: nat)
    requires t != 0 && t != 1
    ensures var s := LocalizedString("", map[]);
      var b := Dialog(1, s, s, "", [], RequirementMode(0), [DialogOption(s, "", [], Redirect(0))]);
      var a := Dialog(0, s, s, "", [], RequirementMode(0), [DialogOption(s, "", [], Child(b))]);
      DeleteRecurseAsWritten([a], t, a, false, fuel).None?
      && DeleteRecurseDialog(t, a, false) == a
  {
    var s := LocalizedString("", map[]);
    var b := Dialog(1, s, s, "", [], RequirementMode(0), [DialogOption(s, "", [], Redirect(0))]);
    var a := Dialog(0, s, s, "", [], RequirementMode(0), [DialogOption(s, "", [], Child(b))]);
    assert ConversationEngine.GetDialog([a], 0) == Some(a);
    if fuel >= 2 {
      DeleteRecurseLoopDiverges(t, fuel - 2);
      assert DeleteRecurseAsWritten([a], t, a, false, fuel - 2).None?;
      assert CutDownAsWritten([a], t, b, false, 1, fuel - 2).None?;
      assert DeleteRecurseAsWritten([a], t, b, false, fuel - 1).None?;
      assert CutDownAsWritten([a], t, a, false, 1, fuel - 1).None?;
    } else if fuel == 1 {
      assert DeleteRecurseAsWritten([a], t, b, false, 0).None?;
    }
    assert DeleteRecurseDialog(t, b, false).options == b.options;
    assert DeleteRecurseDialog(t, a, false).options == a.options;
  }

  // ---------------------------------------------------------------------
  // Option targets

  /** The dialog the editor creates: the given ID, every other field at its default. */
  function NewDialog(id: int): Dialog
  {
    Dialog(id, LocalizedString("", map[]), LocalizedString("", map[]), "", [], RequirementMode(0), [])
  }

  /**
   * Sets the link of option `k` of the dialog with ID `owner` in `d`'s chain
   * to `l`.  The inspector edits one option object of one dialog of the
   * active tree; the model addresses it by its owner's ID and its position.
   */
  function SetLink(d: Dialog, owner: int, k: nat, l: Link): (r: Dialog)
    ensures r.id == d.id && r.title == d.title && r.text == d.text
    ensures r.tag == d.tag && r.requirements == d.requirements && r.mode == d.mode
    ensures |r.options| == |d.options|
    ensures forall j :: 0 <= j < |r.options| ==> r.options[j] == SetLinkAt(d, owner, k, l, j)
    decreases d, 2, 0
  {
    d.(options := SetLinkFrom(d, owner, k, l, 0))
  }

  function SetLinkFrom(d: Dialog, owner: int, k: nat, l: Link, i: nat): (r: seq<DialogOption>)
    requires i <= |d.options|
    ensures |r| == |d.options| - i
    ensures forall j :: 0 <= j < |r| ==> r[j] == SetLinkAt(d, owner, k, l, i + j)
    decreases d, 1, |d.options| - i
  {
    if i == |d.options| then []
    else
      var rest := SetLinkFrom(d, owner, k, l, i + 1);
      var r := [SetLinkAt(d, owner, k, l, i)] + rest;
      assert forall j :: 0 < j < |r| ==> r[j] == rest[j - 1];
      r
  }

  /** Option `j` of `d` after the edit: replaced at the owner, otherwise edited inside its subtree. */
  function SetLinkAt(d: Dialog, owner: int, k: nat, l: Link, j: nat): (r: DialogOption)
    requires j < |d.options|
    ensures var o := d.options[j];
      r.text == o.text && r.tag == o.tag && r.notifications == o.notifications
    decreases d, 0, 0
  {
    var o := d.options[j];
    if d.id == owner && j == k then o.(next := l)
    else
      match o.next
      case Child(c) => o.(next := Child(SetLink(c, owner, k, l)))
      case _ => o
  }

  /** Some dialog with ID `owner` in `d`'s chain has an option at position `k`. */
  predicate HasOption(d: Dialog, owner: int, k: nat)
  {
    exists x :: x in Chain(d) && x.id == owner && k < |x.options|
  }

  /** Some dialog with ID `owner` in `d`'s chain has option `k` linked by `l`. */
  predicate LinkedBy(d: Dialog, owner: int, k: nat, l: Link)
  {
    exists x :: x in Chain(d) && x.id == owner && k < |x.options| && x.options[k].next == l
  }

  /** A chain contains the chain of each of its members. */
  lemma {:induction false} ChainTransitive(d: Dialog, x: Dialog, y: Dialog)
    requires x in Chain(d) && y in Chain(x)
    ensures y in Chain(d)
    decreases d
  {
    if x != d {
      assert x in ChainFrom(d, 0);
      ChainFromMember(d, 0, x);
      var j :| 0 <= j < |d.options| && d.options[j].next.Child? && x in Chain(d.options[j].next.dialog);
      ChainTransitive(d.options[j].next.dialog, x, y);
      ChainContainsChild(d, j, y);
    }
  }

  /** A dialog that an option of the chain links to normally is in the chain. */
  lemma LinkedByChild(d: Dialog, owner: int, k: nat, c: Dialog)
    requires LinkedBy(d, owner, k, Child(c))
    ensures c in Chain(d)
  {
    var x :| x in Chain(d) && x.id == owner && k < |x.options| && x.options[k].next == Child(c);
    assert c in Chain(c);
    ChainContainsChild(x, k, c);
    ChainTransitive(d, x, c);
  }

  /** After the edit, the addressed option carries the new link. */
  lemma {:induction false} SetLinkReaches(d: Dialog, owner: int, k: nat, l: Link)
    requires HasOption(d, owner, k)
    ensures LinkedBy(SetLink(d, owner, k, l), owner, k, l)
    decreases d
  {
    var r := SetLink(d, owner, k, l);
    if d.id == owner && k < |d.options| {
      assert r.options[k].next == l;
      assert r in Chain(r);
    } else {
      var x :| x in Chain(d) && x.id == owner && k < |x.options|;
      assert x in ChainFrom(d, 0);
      ChainFromMember(d, 0, x);
      var j :| 0 <= j < |d.options| && d.options[j].next.Child? && x in Chain(d.options[j].next.dialog);
      var c := d.options[j].next.dialog;
      SetLinkReaches(c, owner, k, l);
      var y :| y in Chain(SetLink(c, owner, k, l)) && y.id == owner && k < |y.options| && y.options[k].next == l;
      assert r.options[j].next == Child(SetLink(c, owner, k, l));
      ChainContainsChild(r, j, y);
    }
  }

  /** Addressing an option that the chain does not have changes nothing. */
  lemma {:induction false} SetLinkAbsent(d: Dialog, owner: int, k: nat, l: Link)
    requires !HasOption(d, owner, k)
    ensures SetLink(d, owner, k, l) == d
    decreases d
  {
    var r := SetLink(d, owner, k, l);
    assert d in Chain(d);
    forall j | 0 <= j < |d.options|
      ensures r.options[j] == d.options[j]
    {
      match d.options[j].next
      case Child(c) =>
        assert !HasOption(c, owner, k) by {
          forall x | x in Chain(c)
            ensures !(x.id == owner && k < |x.options|)
          {
            ChainContainsChild(d, j, x);
          }
        }
        SetLinkAbsent(c, owner, k, l);
      case _ =>
    }
    assert r.options == d.options;
  }

  /** Two links lead to the same place: both none, the same redirection, or normal links to dialogs with the same ID. */
  predicate SameTarget(a: Link, b: Link)
  {
    match a
    case NoLink => b.NoLink?
    case Redirect(t) => b == Redirect(t)
    case Child(c) => b.Child? && b.dialog.id == c.id
  }

  /** `x` lies in a subtree that option `k` of a dialog with ID `owner` in `d`'s chain owns. */
  predicate UnderEdit(d: Dialog, owner: int, k: nat, x: Dialog)
  {
    exists y :: y in Chain(d) && y.id == owner && k < |y.options| && y.options[k].next.Child?
      && x in Chain(y.options[k].next.dialog)
  }

  /** Every option of a dialog other than the addressed one keeps its target. */
  lemma SetLinkKeepsOptions(x: Dialog, owner: int, k: nat, l: Link)
    ensures var y := SetLink(x, owner, k, l);
      forall j :: 0 <= j < |x.options| && !(x.id == owner && j == k) ==>
        SameTarget(x.options[j].next, y.options[j].next)
  {
    var y := SetLink(x, owner, k, l);
    forall j | 0 <= j < |x.options| && !(x.id == owner && j == k)
      ensures SameTarget(x.options[j].next, y.options[j].next)
    {
      assert y.options[j] == SetLinkAt(x, owner, k, l, j);
    }
  }

  /**
   * Frame of the edit: a dialog of the chain that does not hang below the
   * replaced link is still in the chain afterwards, and every option of it
   * other than the addressed one keeps its target.
   */
  lemma {:induction false} SetLinkFrame(d: Dialog, owner: int, k: nat, l: Link, x: Dialog)
    requires x in Chain(d) && !UnderEdit(d, owner, k, x)
    ensures var y := SetLink(x, owner, k, l);
      y in Chain(SetLink(d, owner, k, l)) && y.id == x.id && |y.options| == |x.options|
      && forall j :: 0 <= j < |x.options| && !(x.id == owner && j == k) ==>
           SameTarget(x.options[j].next, y.options[j].next)
    decreases d
  {
    var r := SetLink(d, owner, k, l);
    SetLinkKeepsOptions(x, owner, k, l);
    if x == d {
      assert r in Chain(r);
    } else {
      assert x in ChainFrom(d, 0);
      ChainFromMember(d, 0, x);
      var j :| 0 <= j < |d.options| && d.options[j].next.Child? && x in Chain(d.options[j].next.dialog);
      var c := d.options[j].next.dialog;
      assert d in Chain(d);
      assert !(d.id == owner && j == k);
      forall y | y in Chain(c)
        ensures y in Chain(d)
      {
        ChainContainsChild(d, j, y);
      }
      assert !UnderEdit(c, owner, k, x);
      SetLinkFrame(c, owner, k, l, x);
      assert r.options[j] == SetLinkAt(d, owner, k, l, j);
      ChainContainsChild(r, j, SetLink(x, owner, k, l));
    }
  }

  /**
   * "New Sub-Dialog" on option `k` of dialog `owner`: reserves the smallest
   * free ID and links the option, through a non-redirection link, to a new
   * dialog with that ID.  Returns the edited tree, the new ID and the
   * reserved set.
   */
  function NewSubDialog(active: Dialog, owner: int, k: nat, reserved: set<int>): (r: (Dialog, int, set<int>))
    ensures 0 <= r.1 && r.1 !in reserved && (forall j :: 0 <= j < r.1 ==> j in reserved)
    ensures r.2 == reserved + {r.1}
    ensures HasOption(active, owner, k) ==>
      LinkedBy(r.0, owner, k, Child(NewDialog(r.1))) && NewDialog(r.1) in Chain(r.0)
    ensures !HasOption(active, owner, k) ==> r.0 == active
    ensures r.0 == SetLink(active, owner, k, Child(NewDialog(r.1)))
  {
    var (id, after) := ReserveDialogID(reserved);
    var edited := SetLink(active, owner, k, Child(NewDialog(id)));
    if HasOption(active, owner, k) then
      SetLinkReaches(active, owner, k, Child(NewDialog(id)));
      LinkedByChild(edited, owner, k, NewDialog(id));
      (edited, id, after)
    else
      SetLinkAbsent(active, owner, k, Child(NewDialog(id)));
      (edited, id, after)
  }

  /**
   * A collection opened as the editor does it, with nothing reserved: "New
   * Sub-Dialog" on the only option of a loaded root A (ID 0) hands out ID 0
   * again, and A's chain then holds two dialogs with ID 0.
   */
  lemma FreshEditorReusesLoadedId()
    ensures var s := LocalizedString("", map[]);
      var a := Dialog(0, s, s, "", [], RequirementMode(0), [DialogOption(s, "", [], NoLink)]);
      var r := NewSubDialog(a, 0, 0, {});
      r.1 == a.id && !UniqueIds(Chain(r.0))
  {
    var s := LocalizedString("", map[]);
    var a := Dialog(0, s, s, "", [], RequirementMode(0), [DialogOption(s, "", [], NoLink)]);
    assert a in Chain(a);
    var r := NewSubDialog(a, 0, 0, {});
    var c := Chain(r.0);
    var i :| 0 <= i < |c| && c[i] == NewDialog(r.1);
    assert c[0] == r.0 && |r.0.options| == 1;
    assert i != 0;
    assert c[0].id == c[i].id;
  }

  /**
   * The dialogs offered by "link to existing": the active dialog's chain,
   * except the dialog that owns the option being edited.
   */
  function LinkCandidates(active: Dialog, owner: int): (r: seq<Dialog>)
    ensures forall x :: x in r <==> x in Chain(active) && x.id != owner
  {
    WithoutOwner(GetAllDialogsInChain([], active), owner)
  }

  function WithoutOwner(s: seq<Dialog>, owner: int): (r: seq<Dialog>)
    ensures forall x :: x in r <==> x in s && x.id != owner
    decreases |s|
  {
    if s == [] then []
    else if s[0].id == owner then WithoutOwner(s[1..], owner)
    else [s[0]] + WithoutOwner(s[1..], owner)
  }

  /** "Link to existing": option `k` of dialog `owner` redirects to the chosen dialog. */
  function LinkExisting(active: Dialog, owner: int, k: nat, target: Dialog): (r: Dialog)
    ensures HasOption(active, owner, k) ==> LinkedBy(r, owner, k, Redirect(target.id))
    ensures !HasOption(active, owner, k) ==> r == active
    ensures r.id == active.id
    ensures r == SetLink(active, owner, k, Redirect(target.id))
  {
    var edited := SetLink(active, owner, k, Redirect(target.id));
    if HasOption(active, owner, k) then
      SetLinkReaches(active, owner, k, Redirect(target.id));
      edited
    else
      SetLinkAbsent(active, owner, k, Redirect(target.id));
      edited
  }

  /**
   * The "x" on option `k` of dialog `owner` (shown only when the option has a
   * target): a normal link's target is deleted from the active dialog's chain,
   * which also cuts this option, and its ID released; a redirection is only
   * unlinked.  The option is the one the ID search of the chain finds.
   */
  function ClearLink(active: Dialog, owner: int, k: nat, reserved: set<int>): (r: (Dialog, set<int>))
    ensures var x := ConversationEngine.FindDialog(active, owner);
      (x.None? || k >= |x.value.options| || x.value.options[k].next.NoLink?) ==> r == (active, reserved)
    ensures var x := ConversationEngine.FindDialog(active, owner);
      (x.Some? && k < |x.value.options| && x.value.options[k].next.Child?) ==>
        var t := x.value.options[k].next.dialog.id;
        r.0 == DeleteRecurseDialog(t, active, false)
        && r.0.id == active.id && NoLinkInChain(r.0, t) && r.1 == ReleaseDialogID(reserved, t)
        && (UniqueIds(Chain(active)) ==> LinkedBy(r.0, owner, k, NoLink))
    ensures var x := ConversationEngine.FindDialog(active, owner);
      (x.Some? && k < |x.value.options| && x.value.options[k].next.Redirect?) ==>
        r.0 == SetLink(active, owner, k, NoLink)
        && r.0.id == active.id && LinkedBy(r.0, owner, k, NoLink) && r.1 == reserved
  {
    match ConversationEngine.FindDialog(active, owner)
    case None => (active, reserved)
    case Some(x) =>
      if k >= |x.options| then (active, reserved)
      else
        match x.options[k].next
        case NoLink => (active, reserved)
        case Child(c) =>
          var (after, released) := DeleteCleanupDialog(Some(active), c.id, reserved);
          if UniqueIds(Chain(active)) then
            ClearLinkCutsOption(active, x, k);
            (after.value, released)
          else
            (after.value, released)
        case Redirect(_) =>
          assert HasOption(active, owner, k);
          SetLinkReaches(active, owner, k, NoLink);
          (SetLink(active, owner, k, NoLink), reserved)
  }

  /** With distinct IDs, deleting the target of a normal link leaves that option with no target. */
  lemma ClearLinkCutsOption(active: Dialog, x: Dialog, k: nat)
    requires x in Chain(active) && UniqueIds(Chain(active))
    requires k < |x.options| && x.options[k].next.Child?
    ensures LinkedBy(DeleteRecurseDialog(x.options[k].next.dialog.id, active, false), x.id, k, NoLink)
  {
    var t := x.options[k].next.dialog.id;
    OwnerNotBelowCut(active, x, k);
    DeleteRecurseKeeps(t, active, x);
    var z := DeleteRecurseDialog(t, x, false);
    assert z.options[k] == CutOption(t, x, false, k);
  }

  // ---------------------------------------------------------------------
  // Option reordering

  /**
   * Moves option `i` by `move` positions by swapping it with the option there,
   * when that position exists; otherwise nothing changes.
   */
  function MoveOption<T>(opts: seq<T>, i: int, move: int): (r: seq<T>)
    requires 0 <= i < |opts|
    ensures |r| == |opts|
    ensures 0 <= i + move < |opts| ==>
      r[i] == opts[i + move] && r[i + move] == opts[i]
      && forall k :: 0 <= k < |r| && k != i && k != i + move ==> r[k] == opts[k]
    ensures !(0 <= i + move < |opts|) ==> r == opts
    ensures multiset(r) == multiset(opts)
  {
    if 0 <= i + move < |opts| then opts[i := opts[i + move]][i + move := opts[i]]
    else opts
  }

  /** Moving back undoes a move. */
  lemma MoveOptionUndo<T>(opts: seq<T>, i: int, move: int)
    requires 0 <= i < |opts| && 0 <= i + move < |opts|
    ensures MoveOption(MoveOption(opts, i, move), i + move, -move) == opts
  {
  }

  // ---------------------------------------------------------------------
  // Names

  function StartsWith(s: string, prefix: string): bool
  {
    |prefix| <= |s| && s[..|prefix|] == prefix
  }

  /** A name is valid when it is present, non-empty and does not begin with a space. */
  function IsValidName(name: Option<string>): (b: bool)
    ensures b <==> name.Some? && |name.value| > 0 && name.value[0] != ' '
  {
    name.Some? && name.value != "" && !StartsWith(name.value, " ")
  }
}
