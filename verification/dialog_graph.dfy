/**
 * The dialog graph as loaded by the conversation engine and edited by the
 * dialog editor: dialogs (conversation turns), their options (player choices)
 * and the link each option holds to the next dialog.
 *
 * Non-redirection links are only ever created towards freshly created
 * dialogs, so they form a forest; a dialog is therefore an inductive tree whose
 * option links are `Child` subtrees.  A redirection link (a loop back into
 * existing dialogs) is kept as the ID of its target and is resolved through
 * the ID search.
 */
module DialogGraph {
  import opened Wrappers

  /** Ordinal of a member of the system's language enumeration. */
  datatype Language = Language(ordinal: nat)

  /** The default language of the system, `Language.EN_Default`. */
  const EnDefault := Language(0)

  /** Ordinal of a member of the localization fallback policy enumeration. */
  datatype LocalizationFallback = LocalizationFallback(ordinal: nat)

  /** The engine's default policy, `LocalizationFallback.DebugOutput`. */
  const DebugOutput := LocalizationFallback(0)

  /** A per-language string table with an authoring description. */
  datatype LocalizedString = LocalizedString(description: string, entries: map<Language, string>)

  /** Which collaborator a requirement inspects. */
  datatype RequirementTarget = PlayerTarget | NpcTarget | WorldTarget

  /**
   * An authored requirement on a dialog: its kind (an ordinal of the
   * requirement type enumeration), the collaborator it targets and its payload.
   */
  datatype DialogRequirement = DialogRequirement(
    kind: nat,
    target: RequirementTarget,
    intValue: int,
    stringValue: string,
    floatValue: real)

  /** Ordinal of the dialog's requirement combination mode. */
  datatype RequirementMode = RequirementMode(ordinal: nat)

  /** An authored notification: kind, target selector and payload. */
  datatype Notification = Notification(kind: nat, target: nat, targetName: string, value: string)

  /**
   * The link an option holds.  `NoLink` is a null `NextDialog` (whatever the
   * redirection flag says, since every traversal tests for null first);
   * `Child` is a non-redirection link, which owns its target; `Redirect` is a
   * link with the redirection flag set, naming its target by ID.
   */
  datatype Link = NoLink | Child(dialog: Dialog) | Redirect(targetId: int)

  datatype DialogOption = DialogOption(
    text: LocalizedString,
    tag: string,
    notifications: seq<Notification>,
    next: Link)

  datatype Dialog = Dialog(
    id: int,
    title: LocalizedString,
    text: LocalizedString,
    tag: string,
    requirements: seq<DialogRequirement>,
    mode: RequirementMode,
    options: seq<DialogOption>)

  /**
   * The pre-order listing of `d` and every dialog reachable from it through
   * non-redirection links.  This is the reference against which the ID
   * search and the chain gather are stated.
   */
  function Chain(d: Dialog): (r: seq<Dialog>)
    ensures |r| >= 1 && r[0] == d
    decreases d, 1, 0
  {
    [d] + ChainFrom(d, 0)
  }

  /** The pre-order listing of the subtrees under options `i..` of `d`. */
  function ChainFrom(d: Dialog, i: nat): seq<Dialog>
    requires i <= |d.options|
    decreases d, 0, |d.options| - i
  {
    if i == |d.options| then []
    else
      match d.options[i].next
      case Child(c) => Chain(c) + ChainFrom(d, i + 1)
      case _ => ChainFrom(d, i + 1)
  }

  /** The subtree an option owns, as a listing (empty unless it is a `Child`). */
  function LinkChain(l: Link): seq<Dialog>
  {
    match l
    case Child(c) => Chain(c)
    case _ => []
  }

  /** The pre-order listing of a whole forest, root after root. */
  function Forest(roots: seq<Dialog>): seq<Dialog>
    decreases |roots|
  {
    if roots == [] then [] else Chain(roots[0]) + Forest(roots[1..])
  }

  /** No two entries of `s` carry the same ID. */
  predicate UniqueIds(s: seq<Dialog>)
  {
    forall j, k :: 0 <= j < k < |s| ==> s[j].id != s[k].id
  }

  /** The first entry of `s` whose ID is `id`, in list order. */
  function FirstWithId(s: seq<Dialog>, id: int): (r: Option<Dialog>)
    ensures r.None? <==> forall k :: 0 <= k < |s| ==> s[k].id != id
    ensures r.Some? ==> r.value in s && r.value.id == id
  {
    if s == [] then None
    else if s[0].id == id then Some(s[0])
    else FirstWithId(s[1..], id)
  }

  /** The first match in a concatenation is the first match of the left part, if any. */
  lemma {:induction false} FirstWithIdAppend(a: seq<Dialog>, b: seq<Dialog>, id: int)
    ensures FirstWithId(a + b, id)
         == if FirstWithId(a, id).Some? then FirstWithId(a, id) else FirstWithId(b, id)
  {
    if a == [] {
      assert a + b == b;
    } else {
      assert (a + b)[0] == a[0];
      assert (a + b)[1..] == a[1..] + b;
      FirstWithIdAppend(a[1..], b, id);
    }
  }

  /** With unique IDs, searching for an entry's ID finds exactly that entry. */
  lemma {:induction false} FirstWithIdUnique(s: seq<Dialog>, p: nat)
    requires UniqueIds(s) && p < |s|
    ensures FirstWithId(s, s[p].id) == Some(s[p])
  {
    if p > 0 {
      assert s[0].id != s[p].id;
      assert UniqueIds(s[1..]) by {
        forall j, k | 0 <= j < k < |s[1..]| ensures s[1..][j].id != s[1..][k].id {
          assert s[1..][j] == s[j + 1] && s[1..][k] == s[k + 1];
        }
      }
      FirstWithIdUnique(s[1..], p - 1);
    }
  }

  /** Every root of a forest appears in its listing. */
  lemma {:induction false} RootInForest(roots: seq<Dialog>, j: nat)
    requires j < |roots|
    ensures roots[j] in Forest(roots)
  {
    if j > 0 {
      RootInForest(roots[1..], j - 1);
    }
  }
}
