/**
 * Properties relating the engine's operations to each other and to the graph:
 * topic discovery and topic selection agree, an offered answer leads where
 * the filter promised, and the single-topic screen reads the wrong root.
 */
module EngineProperties {
  import opened Wrappers
  import opened DialogGraph
  import opened Collaborators
  import opened Sequences
  import C = Conversations
  import opened ConversationEngine

  /** Filtering roots distributes over concatenation: root-list order is kept. */
  lemma {:induction false} QualifyingAppend(caps: Capabilities, ctx: Context, a: seq<Dialog>, b: seq<Dialog>)
    ensures Qualifying(caps, ctx, a + b) == Qualifying(caps, ctx, a) + Qualifying(caps, ctx, b)
  {
    if a != [] {
      assert (a + b)[0] == a[0];
      assert (a + b)[1..] == a[1..] + b;
      QualifyingAppend(caps, ctx, a[1..], b);
    } else {
      assert a + b == b;
    }
  }

  /** The qualifying roots are a sub-list of the roots, in the same order. */
  lemma {:induction false} QualifyingIsSubsequence(caps: Capabilities, ctx: Context, roots: seq<Dialog>)
    ensures IsSubsequence(Qualifying(caps, ctx, roots), roots)
    decreases |roots|
  {
    if roots != [] {
      var q := Qualifying(caps, ctx, roots[1..]);
      QualifyingIsSubsequence(caps, ctx, roots[1..]);
      assert [roots[0]] + roots[1..] == roots;
      if caps.meets(roots[0], ctx) {
        assert ([roots[0]] + q)[1..] == q;
      } else {
        SubsequenceExtend(q, roots[1..], roots[0]);
      }
    }
  }

  /** With unique IDs, a listed dialog is what the search for its ID finds. */
  lemma FirstWithIdFindsMember(s: seq<Dialog>, x: Dialog)
    requires UniqueIds(s) && x in s
    ensures FirstWithId(s, x.id) == Some(x)
  {
    var p :| 0 <= p < |s| && s[p] == x;
    FirstWithIdUnique(s, p);
  }

  /** With unique IDs, searching the loaded forest for a root's ID finds that root. */
  lemma GetDialogFindsRoot(roots: seq<Dialog>, j: nat)
    requires UniqueIds(Forest(roots)) && j < |roots|
    ensures GetDialog(roots, roots[j].id) == Some(roots[j])
  {
    RootInForest(roots, j);
    FirstWithIdFindsMember(Forest(roots), roots[j]);
  }

  /**
   * Choosing the k-th entry of a topic list (dialog ID -1, answer index = the
   * topic's root ID) shows exactly the k-th qualifying root, fires nothing
   * and logs nothing.
   */
  lemma TopicSelection(e: Engine, caps: Capabilities, ctx: Context, language: Language, k: nat)
    requires UniqueIds(Forest(e.conversations))
    requires GetAvailableTopics(e, caps, ctx, language).Some?
    requires GetAvailableTopics(e, caps, ctx, language).value.kind == C.TopicList
    requires k < |GetAvailableTopics(e, caps, ctx, language).value.answers|
    ensures var q := Qualifying(caps, ctx, e.conversations);
      k < |q| && Answer(e, caps, ctx, -1, GetAvailableTopics(e, caps, ctx, language).value.answers[k].index, language)
                 == Outcome(Some(SingleScreen(e, caps, ctx, q[k], language)), [], ctx, None)
  {
    var q := Qualifying(caps, ctx, e.conversations);
    assert |q| >= 2;
    assert q[k] in q;
    var j :| 0 <= j < |e.conversations| && e.conversations[j] == q[k];
    GetDialogFindsRoot(e.conversations, j);
  }

  /**
   * With the corrected discovery, a single-topic screen is the very screen
   * that selecting that topic by its ID produces.
   */
  lemma SingleTopicSelection(e: Engine, caps: Capabilities, ctx: Context, language: Language)
    requires UniqueIds(Forest(e.conversations))
    requires GetAvailableTopicsCorrected(e, caps, ctx, language).Some?
    requires GetAvailableTopicsCorrected(e, caps, ctx, language).value.kind == C.Single
    ensures var c := GetAvailableTopicsCorrected(e, caps, ctx, language).value;
      Answer(e, caps, ctx, -1, c.id, language) == Outcome(Some(c), [], ctx, None)
  {
    var q := Qualifying(caps, ctx, e.conversations);
    if |q| != 1 {
      assert false;
    }
    assert q[0] in q;
    var j :| 0 <= j < |e.conversations| && e.conversations[j] == q[0];
    GetDialogFindsRoot(e.conversations, j);
  }

  /**
   * An answer offered for a found dialog whose option fires no notification
   * leads on to a screen exactly when the option has a target: the target's
   * gate already passed while filtering, under the same context.
   */
  lemma OfferedAnswerLeadsOn(e: Engine, caps: Capabilities, ctx: Context, d: Dialog, language: Language, k: nat)
    requires d.id != -1 && GetDialog(e.conversations, d.id) == Some(d)
    requires k < |GetAvailableAnswers(e, caps, ctx, d, language)|
    requires GetAvailableAnswers(e, caps, ctx, d, language)[k].index != -1
    ensures var a := GetAvailableAnswers(e, caps, ctx, d, language)[k];
      0 <= a.index < |d.options|
      && (d.options[a.index].notifications == [] ==>
          (Answer(e, caps, ctx, d.id, a.index, language).screen.Some?
           <==> Resolve(e.conversations, d.options[a.index].next).Some?))
  {
    var answers := GetAvailableAnswers(e, caps, ctx, d, language);
    var a := answers[k];
    if forall n :: 0 <= n < |d.options| ==> !OptionAvailable(e, caps, ctx, d.options[n]) {
      assert false;
    }
    assert OptionAvailable(e, caps, ctx, d.options[a.index]);
  }

  /** The end-conversation answer of a found dialog closes it: no screen, nothing fired, no warning. */
  lemma EndConversationCloses(e: Engine, caps: Capabilities, ctx: Context, d: Dialog, language: Language)
    requires d.id != -1 && GetDialog(e.conversations, d.id) == Some(d)
    ensures Answer(e, caps, ctx, d.id, EndConversationAnswer(e, caps, language).index, language)
         == Outcome(None, [], ctx, None)
  {
  }

  /** An engine that has loaded nothing offers no topic and advances nowhere. */
  lemma NoContentBeforeLoad(caps: Capabilities, ctx: Context, language: Language, dialogId: int, answerIndex: int)
    ensures GetAvailableTopics(NewEngine(), caps, ctx, language).None?
    ensures Answer(NewEngine(), caps, ctx, dialogId, answerIndex, language).screen.None?
  {
  }

  // ---------------------------------------------------------------------
  // Concrete scenarios

  function Str(description: string): LocalizedString
  {
    LocalizedString(description, map[])
  }

  function Leaf(id: int, title: string): Dialog
  {
    Dialog(id, Str(title), Str(title + " text"), "", [], RequirementMode(0), [])
  }

  /** Capabilities whose localizer returns the description, and whose notifications do nothing. */
  function DescriptionCaps(meets: (Dialog, Context) -> bool): Capabilities
  {
    Capabilities(meets, (s: LocalizedString, l: Language, f: LocalizationFallback, fl: Language) => s.description,
                 (n: Notification, d: Dialog, ctx: Context) => ctx)
  }

  /**
   * Two roots, A (ID 0) and B (ID 1), where only B's gate passes: discovery
   * shows B's ID but A's title, while the corrected discovery shows B's title.
   */
  lemma SingleTopicTitleDefect(ctx: Context)
    ensures var e := Engine([Leaf(0, "A"), Leaf(1, "B")], DebugOutput, EnDefault, false, Str("End"));
      var caps := DescriptionCaps((d: Dialog, c: Context) => d.id == 1);
      var shown := GetAvailableTopics(e, caps, ctx, EnDefault);
      var fixed := GetAvailableTopicsCorrected(e, caps, ctx, EnDefault);
      shown.Some? && shown.value.id == 1 && shown.value.title == "A"
      && fixed.Some? && fixed.value.id == 1 && fixed.value.title == "B"
  {
    var e := Engine([Leaf(0, "A"), Leaf(1, "B")], DebugOutput, EnDefault, false, Str("End"));
    var caps := DescriptionCaps((d: Dialog, c: Context) => d.id == 1);
    assert e.conversations[1..] == [Leaf(1, "B")];
    assert Qualifying(caps, ctx, e.conversations) == [Leaf(1, "B")];
  }

  /**
   * The walk-through of a node A (ID 1) with option 0 leading to B (ID 2) and
   * option 1 ending the conversation, every gate passing: discovery shows A
   * with both answers, answer 0 shows B, answer 1 closes.
   */
  lemma WalkThrough(ctx: Context)
    ensures
      var b := Leaf(2, "B");
      var o0 := DialogOption(Str("go"), "t0", [], Child(b));
      var o1 := DialogOption(Str("bye"), "t1", [], NoLink);
      var a := Dialog(1, Str("A"), Str("A text"), "ta", [], RequirementMode(0), [o0, o1]);
      var e := Engine([a], DebugOutput, EnDefault, false, Str("End"));
      var caps := DescriptionCaps((d: Dialog, c: Context) => true);
      GetAvailableTopics(e, caps, ctx, EnDefault)
        == Some(C.Conversation(1, "A", "A text", "ta", C.Single, [C.Answer(0, "go", "t0"), C.Answer(1, "bye", "t1")]))
    ensures
      var b := Leaf(2, "B");
      var o0 := DialogOption(Str("go"), "t0", [], Child(b));
      var o1 := DialogOption(Str("bye"), "t1", [], NoLink);
      var a := Dialog(1, Str("A"), Str("A text"), "ta", [], RequirementMode(0), [o0, o1]);
      var e := Engine([a], DebugOutput, EnDefault, false, Str("End"));
      var caps := DescriptionCaps((d: Dialog, c: Context) => true);
      Answer(e, caps, ctx, 1, 0, EnDefault).screen == Some(C.Conversation(2, "B", "B text", "", C.Single, []))
    ensures
      var b := Leaf(2, "B");
      var o0 := DialogOption(Str("go"), "t0", [], Child(b));
      var o1 := DialogOption(Str("bye"), "t1", [], NoLink);
      var a := Dialog(1, Str("A"), Str("A text"), "ta", [], RequirementMode(0), [o0, o1]);
      var e := Engine([a], DebugOutput, EnDefault, false, Str("End"));
      var caps := DescriptionCaps((d: Dialog, c: Context) => true);
      Answer(e, caps, ctx, 1, 1, EnDefault).screen.None?
  {
    var b := Leaf(2, "B");
    var o0 := DialogOption(Str("go"), "t0", [], Child(b));
    var o1 := DialogOption(Str("bye"), "t1", [], NoLink);
    var a := Dialog(1, Str("A"), Str("A text"), "ta", [], RequirementMode(0), [o0, o1]);
    var e := Engine([a], DebugOutput, EnDefault, false, Str("End"));
    var caps := DescriptionCaps((d: Dialog, c: Context) => true);
    assert Qualifying(caps, ctx, e.conversations) == [a];
    var answers := OptionAnswers(e, caps, ctx, a.options, EnDefault, 0);
    assert OptionAnswers(e, caps, ctx, a.options, EnDefault, 2) == [];
    assert OptionAnswers(e, caps, ctx, a.options, EnDefault, 1) == [C.Answer(1, "bye", "t1")];
    assert answers == [C.Answer(0, "go", "t0"), C.Answer(1, "bye", "t1")];
    assert GetDialog(e.conversations, 1) == Some(a);
    assert FireFrom(caps, o0.notifications, a, ctx, 0) == ([], ctx);
    assert GetAvailableAnswers(e, caps, ctx, b, EnDefault) == [];
    assert "B" + " text" == "B text";
  }
}
