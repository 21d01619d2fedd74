# Dialog system: conversation engine and editor graph helpers

This project models two parts of a branching-dialogue system, plus one requirement type:

- **The runtime conversation engine.** It holds the loaded root dialogs. For an (NPC, player, world) context it can:
  - discover the available topics: none, one `Single` screen, or a `TopicList`;
  - advance a conversation from a `(dialogID, answerIndex)` pair;
  - filter each dialog's options by the gate of the option's target;
  - inject an optional "end conversation" answer;
  - find dialogs by ID with a depth-first search that never follows a redirection (loop-back) link.
- **The editor's graph and ID helpers.** These work on the same graph:
  - smallest-free ID reservation and release;
  - duplicate-ID repair on load;
  - the non-redirection chain gather;
  - recursive link deletion;
  - creating, linking and clearing an option's target;
  - swapping options;
  - removing duplicate requirements;
  - the name validator.
- **`Requirement_NPC`.** This is the requirement type that looks only at the NPC.

## Shape of the model

**The graph.** The editor only makes a non-redirection link to a dialog it has just created. So non-redirection links form a forest. A `Dialog` is therefore an inductive tree, and each option's `Link` is one of three things:

- `NoLink`: a null `NextDialog`;
- `Child(dialog)`: a normal link, which owns its subtree;
- `Redirect(id)`: a link whose redirection flag is set.

A redirection is resolved by the engine's own ID search over the loaded roots (`ConversationEngine.Resolve`). `DialogGraph.Chain` lists a dialog and everything reachable from it through non-redirection links, in pre-order. This is the reference definition that the ID search and the chain gather are proved against.

**Collaborator code outside this model.** The following are passed in as the `Capabilities` functions:

- `Dialog.MeetsRequirements` is the gate `meets(dialog, context)`.
- `LocalizedString.GetString` is `getString(text, language, fallback, fallbackLanguage)`.
- `DialogOptionNotification.Notify` is `notify(notification, dialog, context)`. It returns the context as the notification's effect leaves it.

**Notifications.** A chosen option's notifications are returned as an ordered trace of `Notified(notification, dialogId)` events. The gate of the option's target is then checked in the context that the notifications leave behind.

**Results.** A null conversation is `None`. The engine's two `Debug.LogWarning` diagnostics become an optional `Warning` on the outcome of `Answer`.

## Model

| member | source | states |
|---|---|---|
| `ConversationEngine.LoadDialogs` | Assets/DialogSystem/ConversationEngine.cs:58-63 | A null collection is refused (false) and leaves the engine unchanged; any other collection replaces the roots (true); the settings are untouched |
| `EngineProperties.NoContentBeforeLoad` | Assets/DialogSystem/ConversationEngine.cs:42 | An engine that has loaded nothing (empty root list) offers no topic and no advancement yields a screen |
| `ConversationEngine.FindDialog` | Assets/DialogSystem/ConversationEngine.cs:174-195 | The search from a dialog returns the first dialog with that ID in the pre-order non-redirection chain, and nothing when the chain has none: a dialog reachable only through redirections is never found |
| `ConversationEngine.GetDialog` | Assets/DialogSystem/ConversationEngine.cs:161-172 | The search over the roots, in order, returns the first match of the whole forest's pre-order listing |
| `EngineProperties.GetDialogFindsRoot` | Assets/DialogSystem/ConversationEngine.cs:161-172 | When IDs are unique across the loaded forest, searching for a root's ID returns that root |
| `ConversationEngine.OptionAnswers` | Assets/DialogSystem/ConversationEngine.cs:206-218 | Only options that have no target or whose target's gate passes are answered; answer indices are valid, strictly increasing option positions carrying that option's localized text and tag |
| `ConversationEngine.OptionAnswersComplete` | Assets/DialogSystem/ConversationEngine.cs:206-218 | Every option that has no target or whose target's gate passes is answered |
| `ConversationEngine.GetAvailableAnswers` | Assets/DialogSystem/ConversationEngine.cs:203-224 | With no option available the answers are exactly the one end-conversation answer (-1, localized fallback text, "") when the setting is on and empty when it is off; with some option available the filtered list is returned unaugmented |
| `ConversationEngine.Qualifying` | Assets/DialogSystem/ConversationEngine.cs:75-82 | The topics kept are exactly the roots whose gate passes |
| `EngineProperties.QualifyingAppend` | Assets/DialogSystem/ConversationEngine.cs:75-82 | Topic filtering distributes over concatenation of root lists, so it keeps root-list order |
| `EngineProperties.QualifyingIsSubsequence` | Assets/DialogSystem/ConversationEngine.cs:76-82 | The kept topics are an order-preserving sub-list of the roots |
| `ConversationEngine.TopicAnswers` | Assets/DialogSystem/ConversationEngine.cs:92-97 | A topic list has one answer per topic, (root ID, localized title, root tag), in topic order |
| `ConversationEngine.GetAvailableTopics` | Assets/DialogSystem/ConversationEngine.cs:73-101 | No qualifying root gives null; two or more give a TopicList with ID -1, empty title/text/tag and the topic answers in root order; exactly one gives a Single with that root's ID, tag and answers but the title and text of the first loaded root |
| `ConversationEngine.GetAvailableTopicsCorrected` | Assets/DialogSystem/ConversationEngine.cs:83-88 | With exactly one qualifying root the screen is that root's full Single screen; every other case is as in discovery |
| `EngineProperties.SingleTopicTitleDefect` | Assets/DialogSystem/ConversationEngine.cs:83-88 | With roots A (ID 0) and B (ID 1) where only B qualifies, discovery shows ID 1 with A's title, the corrected discovery B's title |
| `EngineProperties.SingleTopicSelection` | Assets/DialogSystem/ConversationEngine.cs:116-129 | With unique IDs, the corrected single-topic screen is exactly what selecting that topic by ID (dialog ID -1) returns |
| `EngineProperties.TopicSelection` | Assets/DialogSystem/ConversationEngine.cs:116-129 | With unique IDs, selecting the k-th topic-list answer shows the k-th qualifying root, fires nothing and warns nothing |
| `ConversationEngine.FireFrom` | Assets/DialogSystem/ConversationEngine.cs:139-142 | Each notification of the option fires exactly once, in list order, attributed to the answered dialog, and the context afterwards is the one the notifications leave when applied one after another in list order |
| `ConversationEngine.NotifyAllAppend` | Assets/DialogSystem/ConversationEngine.cs:139-142 | Applying the notifications of a + b is applying those of a, then those of b to the context a left |
| `ConversationEngine.FireFromSplit` | Assets/DialogSystem/ConversationEngine.cs:139-142 | Firing a list is firing its first k notifications, then the rest from the context they leave: the traces concatenate and the final context is the second part's |
| `ConversationEngine.Answer` | Assets/DialogSystem/ConversationEngine.cs:113-159 | Dialog ID -1: a Single for the node with ID answerIndex iff found and its gate passes, else null with the invalid-topic-selection warning, never a notification. Unknown dialog: null. Valid option: its notifications fire in order and the returned context is the one they leave, applied in list order to the answered dialog; then a Single for the target iff it exists and its gate passes in the post-notification context. Other index: null, nothing fires, the answer-index-out-of-bounds warning unless it is -1 |
| `EngineProperties.OfferedAnswerLeadsOn` | Assets/DialogSystem/ConversationEngine.cs:136-152 | For a found dialog, an offered option answer without notifications advances to a screen exactly when the option has a target, since the target's gate already passed while filtering |
| `EngineProperties.EndConversationCloses` | Assets/DialogSystem/ConversationEngine.cs:155 | Answering the end-conversation answer (-1) of a found dialog closes it: no screen, nothing fired, no warning |
| `EngineProperties.WalkThrough` | Assets/DialogSystem/ConversationEngine.cs:73-159 | A (ID 1) with option 0 to B (ID 2) and option 1 to nothing, all gates open: discovery shows A with answers 0 and 1; answer 0 shows B; answer 1 closes |
| `RequirementNpc.TargetIsNpc` | Assets/DialogSystem/Requirements/Requirement_NPC.cs:11-14 | Every NPC requirement targets the NPC |
| `RequirementNpc.Dispatch` | Assets/DialogSystem/Requirements/Requirement_NPC.cs:16-19 | The three-collaborator evaluation equals the narrow evaluation on the NPC |
| `RequirementNpc.PlayerIndependence` | Assets/DialogSystem/Requirements/Requirement_NPC.cs:16-19 | Changing the player never changes the result |
| `RequirementNpc.WorldIndependence` | Assets/DialogSystem/Requirements/Requirement_NPC.cs:16-19 | Changing the world information never changes the result |
| `RequirementNpc.NpcGateIgnoresPlayerAndWorld` | Assets/DialogSystem/Requirements/Requirement_NPC.cs:16-19 | A combination of NPC requirement results gives the same verdict for any two contexts with the same NPC |
| `RequirementNpc.NpcOnlyDialogGate` | Assets/DialogSystem/Requirements/Requirement_NPC.cs:16-19 | A dialog gate made only of NPC requirements lets a conversation through for one player and world iff it does for any other, given the same NPC |
| `RequirementNpc.NarrowDeterminesWide` | Assets/DialogSystem/Requirements/Requirement_NPC.cs:16-21 | Two NPC requirements that agree on every NPC agree on every context |
| `EditorIds.FreeFrom` | Assets/DialogSystem/Editor/DialogEditor.cs:25-29 | Counting up from n, with [0, n) all reserved, stops at the first unreserved integer, and the count terminates |
| `EditorIds.ReserveDialogID` | Assets/DialogSystem/Editor/DialogEditor.cs:23-32 | Returns the smallest non-negative integer not reserved and adds exactly that integer |
| `EditorIds.ReserveIsLeastFree` | Assets/DialogSystem/Editor/DialogEditor.cs:25-29 | No free non-negative integer is smaller than the reserved one |
| `EditorIds.ReleaseDialogID` | Assets/DialogSystem/Editor/DialogEditor.cs:33-36 | Removes its argument and keeps every other reservation |
| `EditorIds.ReserveReleaseRoundTrip` | Assets/DialogSystem/Editor/DialogEditor.cs:23-36 | Releasing a freshly reserved ID restores the original set |
| `EditorIds.RepairIds` | Assets/DialogSystem/Editor/DialogEditor.cs:45-56 | Over the visited dialogs in order: an unreserved ID is kept and reserved, a reserved one is replaced by the smallest free ID; results are pairwise distinct, all reserved, none reserved beforehand; the save flag is set iff some ID changed |
| `EditorIds.OpenCollection` | Assets/DialogSystem/Editor/DialogEditor.cs:38-62 | Opening a collection with the repair run against an empty reserved set, as intended: the IDs are distinct, all reserved, the loaded ones when nothing needed saving, and the next reserved ID is carried by no loaded dialog |
| `EditorIds.LoadFixReservedIDs` | Assets/DialogSystem/Editor/DialogEditor.cs:38-62 | The repair visits each root's non-redirection chain in pre-order, root after root, with the guarantees of the repair loop; the warning is logged iff some dialog was reassigned |
| `EditorGraph.GetAllDialogsInChain` | Assets/DialogSystem/Editor/DialogEditor.cs:816-833 | The result extends the input list, contains the start dialog, holds exactly the input's entries and the dialogs reachable through non-redirection links, and adds no duplicates |
| `EditorGraph.GatherFrom` | Assets/DialogSystem/Editor/DialogEditor.cs:822-831 | The option loop of the gather extends its list with exactly the chains of the normal links from option i on |
| `EditorGraph.GatherIsChain` | Assets/DialogSystem/Editor/DialogEditor.cs:816-833 | With unique IDs in the chain, gathering into an empty list yields exactly the pre-order chain |
| `EditorGraph.DeleteRecurseDialog` | Assets/DialogSystem/Editor/DialogEditor.cs:209-229 | The dialog keeps its ID, texts, tag, requirements and option count, and each option its text, tag and notifications. A link is cut when it targets the deleted ID or the pass is releasing; otherwise a normal link is recursed into (not releasing) and a redirection is kept |
| `EditorGraph.DeleteRecurseRemovesLinks` | Assets/DialogSystem/Editor/DialogEditor.cs:209-229 | After deleting a dialog from a chain, no option of any dialog left in the chain links to it, normally or by redirection |
| `EditorGraph.DeleteRecurseReleaseCutsAll` | Assets/DialogSystem/Editor/DialogEditor.cs:216-223 | With releaseIfNotLoop set, every link of the dialog is cut |
| `EditorGraph.DeleteRecurseNoOp` | Assets/DialogSystem/Editor/DialogEditor.cs:209-229 | A chain with no link to the deleted dialog is left exactly as it was |
| `EditorGraph.DeleteRecurseIdempotent` | Assets/DialogSystem/Editor/DialogEditor.cs:209-229 | Deleting twice is deleting once |
| `EditorGraph.AsWrittenAgrees` | Assets/DialogSystem/Editor/DialogEditor.cs:209-229 | Whenever the deletion as written finishes, it leaves the same dialog as the corrected deletion |
| `EditorGraph.DeleteRecurseAsWritten` | Assets/DialogSystem/Editor/DialogEditor.cs:209-229 | The as-written recursion, redirections followed: when it finishes it keeps the dialog's ID and its number of options; with no recursion bound left it has no result |
| `EditorGraph.DeleteRecurseLoopDiverges` | Assets/DialogSystem/Editor/DialogEditor.cs:224-227 | For A (ID 0) whose option leads to B (ID 1), which redirects back to A, deleting any dialog ID other than 0 and 1 as written exhausts every recursion bound, while the corrected deletion leaves A unchanged |
| `EditorGraph.DeleteCleanupDialog` | Assets/DialogSystem/Editor/DialogEditor.cs:203-207 | With a dialog active, the tree becomes the corrected deletion of the active tree: it keeps its ID and no dialog of its chain links to the deleted one afterwards; the deleted ID is released whether or not a dialog is active |
| `EditorGraph.DeleteRecurseKeeps` | Assets/DialogSystem/Editor/DialogEditor.cs:209-229 | Every dialog of the chain that is not cut away inside a deleted subtree is still in the chain afterwards, with its own links cut the same way |
| `EditorGraph.SetLink` | Assets/DialogSystem/Editor/DialogEditor.cs:552-553 | Setting the target of option k of the dialog with a given ID keeps every dialog field and every other option, and option k of that dialog keeps its text, tag, requirements and notifications |
| `EditorGraph.SetLinkReaches` | Assets/DialogSystem/Editor/DialogEditor.cs:552-553 | When the active chain holds a dialog with that ID and an option k, the edited tree's chain holds that dialog with option k carrying the new target |
| `EditorGraph.SetLinkAbsent` | Assets/DialogSystem/Editor/DialogEditor.cs:552-553 | When no dialog of the active chain has that ID and an option k, nothing changes |
| `EditorGraph.SetLinkFrame` | Assets/DialogSystem/Editor/DialogEditor.cs:552-553 | Every dialog of the chain that does not hang below the replaced link is still in the chain afterwards, with its ID, its number of options, and every option other than the addressed one leading where it led before |
| `EditorGraph.NewSubDialog` | Assets/DialogSystem/Editor/DialogEditor.cs:546-555 | The new dialog's ID is the smallest free one and is now reserved; the tree is the active tree with only the addressed option relinked, through a normal link, to a new option-less dialog carrying that ID, which is then part of the active chain; with no such option the tree is unchanged |
| `EditorGraph.FreshEditorReusesLoadedId` | Assets/DialogSystem/Editor/DialogEditor.cs:22-32 | With the reserved set empty, as the editor leaves it when a collection is opened, a new sub-dialog under a loaded root with ID 0 also gets ID 0, so the chain's IDs are no longer unique |
| `EditorGraph.LinkCandidates` | Assets/DialogSystem/Editor/DialogEditor.cs:558-567 | The dialogs offered for linking are exactly those of the active chain other than the option's owner (told apart by ID) |
| `EditorGraph.LinkExisting` | Assets/DialogSystem/Editor/DialogEditor.cs:568-573 | The tree is the active tree with only the addressed option made a redirection to the chosen dialog's ID; the root keeps its ID; with no such option the tree is unchanged |
| `EditorGraph.ClearLink` | Assets/DialogSystem/Editor/DialogEditor.cs:430-438 | For the addressed option in the active tree: a normal link's target is deleted by the corrected deletion of the whole active tree, so no dialog of the chain links to it any more, its ID is released, and (with distinct IDs) the option ends with no target; a redirection is cleared, with only that option edited and the reserved IDs untouched; an option with no target, or a missing one, changes nothing |
| `EditorGraph.ClearLinkCutsOption` | Assets/DialogSystem/Editor/DialogEditor.cs:433-437 | With distinct IDs in the active chain, deleting the target of a normal link leaves the option that held it in the chain, with no target |
| `EditorGraph.MoveOption` | Assets/DialogSystem/Editor/DialogEditor.cs:375-380 | When i+move is a position, options i and i+move are exchanged and every other position is unchanged; otherwise nothing changes; the multiset of options is always kept |
| `EditorGraph.MoveOptionUndo` | Assets/DialogSystem/Editor/DialogEditor.cs:375-380 | Moving the option back undoes the move |
| `EditorGraph.IsValidName` | Assets/DialogSystem/Editor/DialogEditor.cs:169-172 | A name is valid iff it is non-null, non-empty and its first character is not a space |
| `EditorRequirements.RemoveDuplicateRequirements` | Assets/DialogSystem/Editor/DialogEditor.cs:725-746 | The nested scan returns exactly the keep-first reference list: a requirement survives iff no earlier requirement has the same (Type, Target), and the survivors keep their order |
| `EditorRequirements.KeepFirstKeys` | Assets/DialogSystem/Editor/DialogEditor.cs:728-743 | The kept requirements cover exactly the keys of the input not already kept (with nothing kept yet: every key of the input) |
| `EditorRequirements.KeepFirstDistinct` | Assets/DialogSystem/Editor/DialogEditor.cs:728-743 | No two kept requirements share (Type, Target) |
| `EditorRequirements.KeepFirstIsSubsequence` | Assets/DialogSystem/Editor/DialogEditor.cs:728-743 | The kept requirements are an order-preserving sub-list of the input |
| `EditorRequirements.KeepFirstKeepsFirst` | Assets/DialogSystem/Editor/DialogEditor.cs:728-743 | The first requirement of each key not already kept is kept |
| `EditorRequirements.KeepFirstOfDistinct` | Assets/DialogSystem/Editor/DialogEditor.cs:728-743 | A list whose keys are distinct and not already kept is left unchanged |
| `EditorRequirements.RemoveDuplicatesIdempotent` | Assets/DialogSystem/Editor/DialogEditor.cs:725-746 | Removing duplicates twice is removing them once |

## Findings

| source | as written | input that shows it | evidently intended | confidence | as-written member | corrected member |
|---|---|---|---|---|---|---|
| Assets/DialogSystem/ConversationEngine.cs:85-87 | With exactly one available topic, the Single screen's title and text are read from `conversations[0]`, not from the topic that qualified | Roots A (ID 0) and B (ID 1); only B's gate passes. The screen has ID 1 but A's title and text | Title and text of the qualifying root, as when that topic is selected from a topic list | medium, not executed | `ConversationEngine.GetAvailableTopics`, `EngineProperties.SingleTopicTitleDefect` | `ConversationEngine.GetAvailableTopicsCorrected`, `EngineProperties.SingleTopicSelection` |
| Assets/DialogSystem/Editor/DialogEditor.cs:224-227 | A link that neither targets the deleted dialog nor is being released is recursed into even when it is a redirection | Active root A (ID 0), option to B (ID 1), B's option redirects back to A. Deleting any other dialog recurses A, B, A, ... without end | Skip redirections in that branch, as the ID search and the chain gather do | high, not executed | `EditorGraph.DeleteRecurseAsWritten`, `EditorGraph.DeleteRecurseLoopDiverges` | `EditorGraph.DeleteRecurseDialog`, `EditorGraph.DeleteRecurseRemovesLinks` |
| Assets/DialogSystem/Editor/DialogEditor.cs:22-38 | The duplicate-ID repair is private and never called, and the reserved-ID set starts empty, so after a collection is opened "New Sub-Dialog" and "New Dialog" hand out 0, 1, ... even when loaded dialogs carry those IDs | A loaded root with ID 0 and one option with no target; "New Sub-Dialog" on that option creates a child with ID 0 | Run the repair when a collection is opened, so that the loaded IDs are reserved | high, not executed | `EditorGraph.FreshEditorReusesLoadedId` | `EditorIds.OpenCollection` |

The corrected deletion is the one that `DeleteCleanupDialog` and `ClearLink` use. `EditorGraph.AsWrittenAgrees` shows that the two deletions differ only in termination: whenever the as-written pass finishes, it leaves the same dialog.

The engine keeps the as-written topic discovery. `GetAvailableTopicsCorrected` sits beside it.

The editor operations take the reserved-ID set as a parameter. `OpenCollection` gives the set that opening a collection should start from, and the empty set is what the code starts from.

## Behaviour of the code worth knowing

- **Topic-list selection.** Here `dialogID` is -1 and `answerIndex` is taken as a dialog ID. The selection runs the full ID search, so any findable dialog can be selected, not only a root.
- **"Open" options.** An option with no target is always offered, whatever the gate of the dialog that owns it.

## Left out

- **Unity GUI and editor-window state.** This covers `OnGUI`, the `Display*`/`Draw*` methods, `Initialize`, scroll and rect arithmetic, colours and styles, the six-item caps on the Add buttons, and the active-dialog/inspector selection. It is rendering with no stated behaviour.
- **Asset and lifecycle plumbing.** This covers `AssetDatabase`, `SetDirty`, `DestroyImmediate`, `AddToAsset`, `DeleteDialog`, `Cleanup`, `Update`/`OnDestroy`, and `Start`. `Start` only calls `LoadDialogs` when a collection is set, and logs a warning otherwise.
- **Option removal in `RecurseDialogs`.** This is the "x" button, move = -10. Its graph effect is `DeleteCleanupDialog` on a normal target, which is modelled. The list removal and asset destruction are not.
- **Abstract collaborator code.** The bodies of `Dialog.MeetsRequirements`, the requirement combination mode, `LocalizedString.GetString`, the concrete requirement classes and `DialogOptionNotification.Notify` are not part of this model. They are the `Capabilities` functions. As a result:
  - gate monotonicity and the ALL/ANY semantics are not stated;
  - the fallback-language resolution policy is not stated.
- **Other requirement types.** `BaseRequirement` and the player and world requirement types are not part of this model. Only the NPC variant is modelled.
- **`Conversation.Npc`.** This field is never assigned by the engine, so it is omitted.
- **Notification failures.** A throwing notification is not modelled. Every `notify` returns.
- **Object identity.** A redirection names its target by ID, and dialogs compare by value. The following compare values or IDs where the code compares object references:
  - the `Contains` in `GetAllDialogsInChain`;
  - the owner test of the link candidates (`Options.Contains`), which compares dialog IDs;
  - the `== toDelete` test in `DeleteRecurseDialog`, which compares dialog IDs;
  - the option being edited by the link buttons, which is addressed by its owner's ID and its index.

  These agree with the code only while IDs are unique. Nothing in the code keeps them unique: the repair that would reserve the loaded IDs is never called, so a new dialog can take the ID of a loaded one (see Findings).
- **Resolve: redirection that cannot be resolved.** A redirection whose ID no loaded dialog carries behaves as a link with no target. In the code it still references its (unreachable) dialog object. The deletion can leave such links, because a redirection from elsewhere into a deleted subtree is not cut.
- **ClearLink: owner cut away with the target.** When the active chain holds two dialogs with the same ID, the owner of the cleared option can itself sit inside the deleted subtree, and then goes with it rather than keeping an option with no target. The option ends with no target only when the chain's IDs are distinct.
- **DeleteRecurseDialog: the detached subtree.** When a normal link is cut, the subtree goes with it. The code's release pass over that detached subtree is not represented.
- **DeleteRecurseAsWritten: redirection targets.** A redirection's target is re-read from the roots as loaded, not as edited so far in the same pass. The result of that recursion only matters for termination.
- **LoadFixReservedIDs: returned IDs.** The new ID of each visited dialog is returned in visit order, not written back into the tree. Redirections are addressed by ID, so rewriting duplicated IDs in the tree could not keep track of which dialog a redirection meant.
- **ReserveDialogID: integer width.** The ID counter is not modelled as a 32-bit int, because exhausting it needs 2^31 reserved IDs.
- **IsValidName: string comparison.** `StartsWith(" ")` is modelled as an ordinal comparison of the first character. .NET's culture-sensitive comparison can ignore zero-width characters, and that is not modelled.
- **NewDialog: new-dialog fields.** The fields of a freshly created dialog other than its ID are not part of this model. They are set to empty values.
- **`LocalizedStringEditor`.** This is the UI for editing strings.
