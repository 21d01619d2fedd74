/**
 * The runtime traversal engine: topic discovery, answer advancement, option
 * filtering, the end-conversation fallback and the ID search.  All operations
 * are pure: the loaded roots and settings are an `Engine` value, and
 * notification effects come back as an ordered trace plus the context they
 * leave behind.
 */
module ConversationEngine {
  import opened Wrappers
  import opened DialogGraph
  import opened Collaborators
  import C = Conversations

  /** The engine's loaded roots and its localization / fallback settings. */
  datatype Engine = Engine(
    conversations: seq<Dialog>,
    fallback: LocalizationFallback,
    fallbackLanguage: Language,
    useEndConversationFallback: bool,
    endConversationFallback: LocalizedString)

  /**
   * Collaborator code that is not part of this model, as functions:
   * `meets` is a dialog's requirement gate for a context, `getString`
   * resolves a localized string for (language, fallback policy, fallback
   * language), and `notify` is the effect of firing a notification of the
   * given dialog on the context.
   */
  datatype Capabilities = Capabilities(
    meets: (Dialog, Context) -> bool,
    getString: (LocalizedString, Language, LocalizationFallback, Language) -> string,
    notify: (Notification, Dialog, Context) -> Context)

  /** A notification fired for the dialog with the given ID. */
  datatype Event = Notified(notification: Notification, dialogId: int)

  /** The two diagnostics the engine logs. */
  datatype Warning = InvalidTopicSelection | AnswerIndexOutOfBounds

  /** What one call to `Answer` produces. */
  datatype Outcome = Outcome(
    screen: Option<C.Conversation>,
    fired: seq<Event>,
    after: Context,
    warning: Option<Warning>)

  /** An engine as constructed, before any load: no roots, default settings. */
  function NewEngine(): Engine
  {
    Engine([], DebugOutput, EnDefault, false, LocalizedString("End Conversation", map[]))
  }

  /**
   * Loads a dialog collection (`None` models a null collection): a null one
   * is refused and leaves the engine as it was; any other replaces the roots.
   */
  function LoadDialogs(e: Engine, collection: Option<seq<Dialog>>): (r: (Engine, bool))
    ensures r.1 <==> collection.Some?
    ensures collection.None? ==> r.0 == e
    ensures collection.Some? ==> r.0.conversations == collection.value
    ensures r.0.fallback == e.fallback && r.0.fallbackLanguage == e.fallbackLanguage
    ensures r.0.useEndConversationFallback == e.useEndConversationFallback
    ensures r.0.endConversationFallback == e.endConversationFallback
  {
    match collection
    case None => (e, false)
    case Some(dialogs) => (e.(conversations := dialogs), true)
  }

  function Localize(e: Engine, caps: Capabilities, s: LocalizedString, language: Language): string
  {
    caps.getString(s, language, e.fallback, e.fallbackLanguage)
  }

  // ---------------------------------------------------------------------
  // ID search

  /**
   * Depth-first search for `id` from `current`, never following a
   * redirection: the first match of the pre-order chain.
   */
  function FindDialog(current: Dialog, id: int): (r: Option<Dialog>)
    ensures r == FirstWithId(Chain(current), id)
    decreases current, 1, 0
  {
    if current.id == id then Some(current)
    else
      FirstWithIdAppend([current], ChainFrom(current, 0), id);
      FindFrom(current, 0, id)
  }

  /** The search over options `i..` of `current`. */
  function FindFrom(current: Dialog, i: nat, id: int): (r: Option<Dialog>)
    requires i <= |current.options|
    ensures r == FirstWithId(ChainFrom(current, i), id)
    decreases current, 0, |current.options| - i
  {
    if i == |current.options| then None
    else
      match current.options[i].next
      case Child(c) =>
        FirstWithIdAppend(Chain(c), ChainFrom(current, i + 1), id);
        var d := FindDialog(c, id);
        if d.Some? then d else FindFrom(current, i + 1, id)
      case _ => FindFrom(current, i + 1, id)
  }

  /** The search over all roots, in order: the first match of the whole forest. */
  function GetDialog(roots: seq<Dialog>, id: int): (r: Option<Dialog>)
    ensures r == FirstWithId(Forest(roots), id)
    decreases |roots|
  {
    if roots == [] then None
    else
      FirstWithIdAppend(Chain(roots[0]), Forest(roots[1..]), id);
      var d := FindDialog(roots[0], id);
      if d.Some? then d else GetDialog(roots[1..], id)
  }

  /**
   * The dialog a link leads to: a child itself, a redirection through the ID
   * search over the loaded roots.
   */
  function Resolve(roots: seq<Dialog>, l: Link): Option<Dialog>
  {
    match l
    case NoLink => None
    case Child(c) => Some(c)
    case Redirect(id) => GetDialog(roots, id)
  }

  // ---------------------------------------------------------------------
  // Option filtering

  /** An option is shown when it has no target or its target's gate passes. */
  predicate OptionAvailable(e: Engine, caps: Capabilities, ctx: Context, o: DialogOption)
  {
    match Resolve(e.conversations, o.next)
    case None => true
    case Some(t) => caps.meets(t, ctx)
  }

  /** `a` is the answer for option `a.index` of `opts`: its localized text and tag. */
  predicate AnswersOption(e: Engine, caps: Capabilities, language: Language, opts: seq<DialogOption>, a: C.Answer)
  {
    0 <= a.index < |opts|
    && a.text == Localize(e, caps, opts[a.index].text, language)
    && a.tag == opts[a.index].tag
  }

  /**
   * The answers for the available options among `opts[i..]`: exactly those
   * options, in increasing position order.
   */
  function OptionAnswers(e: Engine, caps: Capabilities, ctx: Context, opts: seq<DialogOption>,
                         language: Language, i: nat): (r: seq<C.Answer>)
    requires i <= |opts|
    ensures forall k :: 0 <= k < |r| ==>
      i <= r[k].index && AnswersOption(e, caps, language, opts, r[k])
      && OptionAvailable(e, caps, ctx, opts[r[k].index])
    ensures forall j, k :: 0 <= j < k < |r| ==> r[j].index < r[k].index
    decreases |opts| - i
  {
    if i == |opts| then []
    else
      var rest := OptionAnswers(e, caps, ctx, opts, language, i + 1);
      if OptionAvailable(e, caps, ctx, opts[i]) then
        var r := [C.Answer(i, Localize(e, caps, opts[i].text, language), opts[i].tag)] + rest;
        assert r[0].index == i;
        assert forall k :: 0 <= k < |rest| ==> r[k + 1] == rest[k];
        r
      else rest
  }

  /** Some answer of `answers` is for option `n`. */
  predicate HasAnswerFor(answers: seq<C.Answer>, n: int)
  {
    exists k :: 0 <= k < |answers| && answers[k].index == n
  }

  /** Every available option among `opts[i..]` has an answer. */
  lemma {:induction false} OptionAnswersComplete(e: Engine, caps: Capabilities, ctx: Context,
                                                 opts: seq<DialogOption>, language: Language, i: nat)
    requires i <= |opts|
    ensures forall n :: i <= n < |opts| && OptionAvailable(e, caps, ctx, opts[n]) ==>
      HasAnswerFor(OptionAnswers(e, caps, ctx, opts, language, i), n)
    decreases |opts| - i
  {
    if i < |opts| {
      OptionAnswersComplete(e, caps, ctx, opts, language, i + 1);
      var rest := OptionAnswers(e, caps, ctx, opts, language, i + 1);
      var r := OptionAnswers(e, caps, ctx, opts, language, i);
      forall n | i <= n < |opts| && OptionAvailable(e, caps, ctx, opts[n])
        ensures HasAnswerFor(r, n)
      {
        if OptionAvailable(e, caps, ctx, opts[i]) {
          assert r == [C.Answer(i, Localize(e, caps, opts[i].text, language), opts[i].tag)] + rest;
          if n == i {
            assert r[0].index == n;
          } else {
            assert HasAnswerFor(rest, n);
            var k :| 0 <= k < |rest| && rest[k].index == n;
            assert r[k + 1] == rest[k];
          }
        } else {
          assert r == rest;
        }
      }
    }
  }

  /** The synthetic answer that closes the conversation. */
  function EndConversationAnswer(e: Engine, caps: Capabilities, language: Language): C.Answer
  {
    C.Answer(-1, Localize(e, caps, e.endConversationFallback, language), "")
  }

  /**
   * The answers shown for dialog `d`: the available options, or, when none is
   * available, the end-conversation answer if that fallback is enabled.
   */
  function GetAvailableAnswers(e: Engine, caps: Capabilities, ctx: Context, d: Dialog,
                               language: Language): (r: seq<C.Answer>)
    ensures (forall n :: 0 <= n < |d.options| ==> !OptionAvailable(e, caps, ctx, d.options[n])) ==>
      r == if e.useEndConversationFallback then [EndConversationAnswer(e, caps, language)] else []
    ensures (exists n :: 0 <= n < |d.options| && OptionAvailable(e, caps, ctx, d.options[n])) ==>
      r == OptionAnswers(e, caps, ctx, d.options, language, 0)
    ensures forall k :: 0 <= k < |r| ==>
      r[k] == EndConversationAnswer(e, caps, language) || AnswersOption(e, caps, language, d.options, r[k])
  {
    var answers := OptionAnswers(e, caps, ctx, d.options, language, 0);
    OptionAnswersComplete(e, caps, ctx, d.options, language, 0);
    assert answers != [] ==> OptionAvailable(e, caps, ctx, d.options[answers[0].index]);
    if |answers| == 0 && e.useEndConversationFallback then [EndConversationAnswer(e, caps, language)]
    else answers
  }

  /** The `Single` screen of dialog `d`. */
  function SingleScreen(e: Engine, caps: Capabilities, ctx: Context, d: Dialog, language: Language): C.Conversation
  {
    C.Conversation(d.id, Localize(e, caps, d.title, language), Localize(e, caps, d.text, language),
                   d.tag, C.Single, GetAvailableAnswers(e, caps, ctx, d, language))
  }

  // ---------------------------------------------------------------------
  // Topic discovery

  /** The roots whose gate passes, in root-list order. */
  function Qualifying(caps: Capabilities, ctx: Context, roots: seq<Dialog>): (q: seq<Dialog>)
    ensures forall x :: x in q <==> x in roots && caps.meets(x, ctx)
    ensures |q| <= |roots|
    decreases |roots|
  {
    if roots == [] then []
    else if caps.meets(roots[0], ctx) then [roots[0]] + Qualifying(caps, ctx, roots[1..])
    else Qualifying(caps, ctx, roots[1..])
  }

  /** The answers of a topic list: (root ID, localized title, root tag) per topic. */
  function TopicAnswers(e: Engine, caps: Capabilities, topics: seq<Dialog>, language: Language): (r: seq<C.Answer>)
    ensures |r| == |topics|
    ensures forall k :: 0 <= k < |r| ==>
      r[k] == C.Answer(topics[k].id, Localize(e, caps, topics[k].title, language), topics[k].tag)
  {
    seq(|topics|, k requires 0 <= k < |topics| =>
      C.Answer(topics[k].id, Localize(e, caps, topics[k].title, language), topics[k].tag))
  }

  /**
   * Topic discovery as the engine performs it.  With exactly one available
   * root, the screen carries that root's ID, tag and answers, but its title
   * and text are read from the FIRST loaded root, whichever root qualified.
   */
  function GetAvailableTopics(e: Engine, caps: Capabilities, ctx: Context, language: Language): (r: Option<C.Conversation>)
    ensures r.None? <==> forall i :: 0 <= i < |e.conversations| ==> !caps.meets(e.conversations[i], ctx)
    ensures var q := Qualifying(caps, ctx, e.conversations);
      |q| == 1 ==> |e.conversations| > 0 && r == Some(C.Conversation(
        q[0].id,
        Localize(e, caps, e.conversations[0].title, language),
        Localize(e, caps, e.conversations[0].text, language),
        q[0].tag, C.Single, GetAvailableAnswers(e, caps, ctx, q[0], language)))
    ensures var q := Qualifying(caps, ctx, e.conversations);
      |q| >= 2 ==> (r.Some? && r.value.kind == C.TopicList && r.value.id == -1
                    && r.value.title == "" && r.value.text == "" && r.value.tag == ""
                    && r.value.answers == TopicAnswers(e, caps, q, language))
  {
    var q := Qualifying(caps, ctx, e.conversations);
    assert q == [] <==> forall i :: 0 <= i < |e.conversations| ==> !caps.meets(e.conversations[i], ctx) by {
      if q != [] { assert q[0] in q; }
    }
    if |q| == 1 then
      var first := e.conversations[0];
      Some(C.Conversation(q[0].id, Localize(e, caps, first.title, language), Localize(e, caps, first.text, language),
                          q[0].tag, C.Single, GetAvailableAnswers(e, caps, ctx, q[0], language)))
    else if |q| > 1 then
      Some(C.Conversation(-1, "", "", "", C.TopicList, TopicAnswers(e, caps, q, language)))
    else None
  }

  /**
   * Topic discovery with the single-topic screen built entirely from the root
   * that qualified.
   */
  function GetAvailableTopicsCorrected(e: Engine, caps: Capabilities, ctx: Context, language: Language): (r: Option<C.Conversation>)
    ensures r.None? <==> forall i :: 0 <= i < |e.conversations| ==> !caps.meets(e.conversations[i], ctx)
    ensures var q := Qualifying(caps, ctx, e.conversations);
      |q| == 1 ==> r == Some(SingleScreen(e, caps, ctx, q[0], language))
    ensures var q := Qualifying(caps, ctx, e.conversations);
      |q| != 1 ==> r == GetAvailableTopics(e, caps, ctx, language)
  {
    var q := Qualifying(caps, ctx, e.conversations);
    assert |q| == 1 ==> q[0] in q;
    if |q| == 1 then Some(SingleScreen(e, caps, ctx, q[0], language))
    else GetAvailableTopics(e, caps, ctx, language)
  }

  // ---------------------------------------------------------------------
  // Answer advancement

  /**
   * The context left by applying the effects of `ns`, first to last, to
   * `ctx`.  Built from the end of the list, independently of `FireFrom`.
   */
  function NotifyAll(caps: Capabilities, ns: seq<Notification>, d: Dialog, ctx: Context): Context
    decreases |ns|
  {
    if ns == [] then ctx
    else caps.notify(ns[|ns| - 1], d, NotifyAll(caps, ns[..|ns| - 1], d, ctx))
  }

  /** Applying `[x] + ns` is applying `x`, then `ns`. */
  lemma {:induction false} NotifyAllCons(caps: Capabilities, x: Notification, ns: seq<Notification>, d: Dialog, ctx: Context)
    ensures NotifyAll(caps, [x] + ns, d, ctx) == NotifyAll(caps, ns, d, caps.notify(x, d, ctx))
    decreases |ns|
  {
    var s := [x] + ns;
    if ns == [] {
      assert s[..|s| - 1] == [];
    } else {
      assert s[..|s| - 1] == [x] + ns[..|ns| - 1];
      NotifyAllCons(caps, x, ns[..|ns| - 1], d, ctx);
    }
  }

  /** Applying `a + b` is applying `a`, then `b` to what `a` left. */
  lemma {:induction false} NotifyAllAppend(caps: Capabilities, a: seq<Notification>, b: seq<Notification>, d: Dialog, ctx: Context)
    ensures NotifyAll(caps, a + b, d, ctx) == NotifyAll(caps, b, d, NotifyAll(caps, a, d, ctx))
    decreases |b|
  {
    if b == [] {
      assert a + b == a;
    } else {
      assert (a + b)[..|a + b| - 1] == a + b[..|b| - 1];
      NotifyAllAppend(caps, a, b[..|b| - 1], d, ctx);
    }
  }

  /**
   * Fires notifications `ns[i..]` of an option chosen on dialog `d`, in list
   * order, threading the context through each effect.
   */
  function FireFrom(caps: Capabilities, ns: seq<Notification>, d: Dialog, ctx: Context, i: nat): (r: (seq<Event>, Context))
    requires i <= |ns|
    ensures |r.0| == |ns| - i
    ensures forall k :: 0 <= k < |r.0| ==> r.0[k] == Notified(ns[i + k], d.id)
    ensures r.1 == NotifyAll(caps, ns[i..], d, ctx)
    decreases |ns| - i
  {
    if i == |ns| then
      assert ns[i..] == [];
      ([], ctx)
    else
      var rest := FireFrom(caps, ns, d, caps.notify(ns[i], d, ctx), i + 1);
      var events := [Notified(ns[i], d.id)] + rest.0;
      assert forall k :: 0 < k < |events| ==> events[k] == rest.0[k - 1];
      assert ns[i..] == [ns[i]] + ns[i + 1..];
      NotifyAllCons(caps, ns[i], ns[i + 1..], d, ctx);
      (events, rest.1)
  }

  /**
   * Firing a list is firing its first `k` notifications and then the rest
   * from the context they leave: the trace concatenates, the effects compose.
   */
  lemma FireFromSplit(caps: Capabilities, ns: seq<Notification>, d: Dialog, ctx: Context, k: nat)
    requires k <= |ns|
    ensures var first := FireFrom(caps, ns[..k], d, ctx, 0);
      var second := FireFrom(caps, ns[k..], d, first.1, 0);
      FireFrom(caps, ns, d, ctx, 0) == (first.0 + second.0, second.1)
  {
    var first := FireFrom(caps, ns[..k], d, ctx, 0);
    var second := FireFrom(caps, ns[k..], d, first.1, 0);
    var whole := FireFrom(caps, ns, d, ctx, 0);
    assert ns[..k] + ns[k..] == ns;
    assert ns[..k][0..] == ns[..k] && ns[k..][0..] == ns[k..] && ns[0..] == ns;
    NotifyAllAppend(caps, ns[..k], ns[k..], d, ctx);
    assert whole.0 == first.0 + second.0 by {
      forall j | 0 <= j < |whole.0|
        ensures whole.0[j] == (first.0 + second.0)[j]
      {
        if j >= k {
          assert whole.0[j] == Notified(ns[k..][j - k], d.id);
        }
      }
    }
  }

  /**
   * Advances a conversation.  `dialogId == -1` means the answer came from a
   * topic list and `answerIndex` is then the chosen root's ID; otherwise
   * `answerIndex` is an option position of dialog `dialogId`.
   */
  function Answer(e: Engine, caps: Capabilities, ctx: Context, dialogId: int, answerIndex: int,
                  language: Language): (r: Outcome)
    // selection from a topic list: no notification; a Single screen iff found and gate passes
    ensures dialogId == -1 ==>
      var found := GetDialog(e.conversations, answerIndex);
      r.fired == [] && r.after == ctx
      && (r.screen.Some? <==> found.Some? && caps.meets(found.value, ctx))
      && (r.screen.Some? ==> r.screen.value == SingleScreen(e, caps, ctx, found.value, language)
                             && r.screen.value.id == answerIndex)
      && (r.warning.Some? <==> r.screen.None?)
      && (r.warning.Some? ==> r.warning == Some(InvalidTopicSelection))
    // an unknown dialog: nothing at all
    ensures dialogId != -1 && GetDialog(e.conversations, dialogId).None? ==>
      r == Outcome(None, [], ctx, None)
    // an index that is not an option position: nothing fires, warning unless it is -1
    ensures (dialogId != -1 && GetDialog(e.conversations, dialogId).Some?
             && !(0 <= answerIndex < |GetDialog(e.conversations, dialogId).value.options|)) ==>
      r.screen.None? && r.fired == [] && r.after == ctx
      && (r.warning.Some? <==> answerIndex != -1)
      && (r.warning.Some? ==> r.warning == Some(AnswerIndexOutOfBounds))
    // a valid option: its notifications fire once each, in order, then its target is examined
    ensures (dialogId != -1 && GetDialog(e.conversations, dialogId).Some?
             && 0 <= answerIndex < |GetDialog(e.conversations, dialogId).value.options|) ==>
      var o := GetDialog(e.conversations, dialogId).value.options[answerIndex];
      var target := Resolve(e.conversations, o.next);
      |r.fired| == |o.notifications|
      && (forall k :: 0 <= k < |r.fired| ==> r.fired[k] == Notified(o.notifications[k], dialogId))
      && r.after == NotifyAll(caps, o.notifications, GetDialog(e.conversations, dialogId).value, ctx)
      && r.warning.None?
      && (r.screen.Some? <==> target.Some? && caps.meets(target.value, r.after))
      && (r.screen.Some? ==> r.screen.value == SingleScreen(e, caps, r.after, target.value, language))
  {
    if dialogId == -1 then
      match GetDialog(e.conversations, answerIndex)
      case None => Outcome(None, [], ctx, Some(InvalidTopicSelection))
      case Some(d) =>
        if caps.meets(d, ctx) then Outcome(Some(SingleScreen(e, caps, ctx, d, language)), [], ctx, None)
        else Outcome(None, [], ctx, Some(InvalidTopicSelection))
    else
      match GetDialog(e.conversations, dialogId)
      case None => Outcome(None, [], ctx, None)
      case Some(d) =>
        if 0 <= answerIndex < |d.options| then
          var o := d.options[answerIndex];
          var (events, after) := FireFrom(caps, o.notifications, d, ctx, 0);
          match Resolve(e.conversations, o.next)
          case None => Outcome(None, events, after, None)
          case Some(t) =>
            if caps.meets(t, after) then Outcome(Some(SingleScreen(e, caps, after, t, language)), events, after, None)
            else Outcome(None, events, after, None)
        else if answerIndex == -1 then Outcome(None, [], ctx, None)
        else Outcome(None, [], ctx, Some(AnswerIndexOutOfBounds))
  }
}
