/**
 * Requirements that inspect only the NPC.  The three-collaborator evaluation
 * every requirement offers is sealed here to delegate to a narrow predicate
 * on the NPC, which each concrete NPC requirement supplies.
 */
module RequirementNpc {
  import opened DialogGraph
  import opened Collaborators
  import ConversationEngine

  /** An NPC requirement, given by its narrow `Evaluate(npc)`. */
  datatype NpcRequirement = NpcRequirement(evaluateNpc: Npc -> bool)

  /** The collaborator kind every NPC requirement declares. */
  function Target(r: NpcRequirement): RequirementTarget
  {
    NpcTarget
  }

  /** The sealed three-collaborator evaluation. */
  function Evaluate(r: NpcRequirement, player: Player, npc: Npc, world: WorldInfo): bool
  {
    r.evaluateNpc(npc)
  }

  lemma TargetIsNpc(r: NpcRequirement)
    ensures Target(r) == NpcTarget
    ensures Target(r) != PlayerTarget && Target(r) != WorldTarget
  {
  }

  /** The wide evaluation is the narrow one on the NPC. */
  lemma Dispatch(r: NpcRequirement, player: Player, npc: Npc, world: WorldInfo)
    ensures Evaluate(r, player, npc, world) == r.evaluateNpc(npc)
  {
  }

  /** Changing the player never changes the result. */
  lemma PlayerIndependence(r: NpcRequirement, p1: Player, p2: Player, npc: Npc, world: WorldInfo)
    ensures Evaluate(r, p1, npc, world) == Evaluate(r, p2, npc, world)
  {
  }

  /** Changing the world information never changes the result. */
  lemma WorldIndependence(r: NpcRequirement, player: Player, npc: Npc, w1: WorldInfo, w2: WorldInfo)
    ensures Evaluate(r, player, npc, w1) == Evaluate(r, player, npc, w2)
  {
  }

  /** Two NPC requirements that agree on every NPC agree on every context. */
  lemma NarrowDeterminesWide(r1: NpcRequirement, r2: NpcRequirement)
    requires forall n: Npc :: r1.evaluateNpc(n) == r2.evaluateNpc(n)
    ensures forall p: Player, n: Npc, w: WorldInfo :: Evaluate(r1, p, n, w) == Evaluate(r2, p, n, w)
  {
  }

  /** The results of `reqs` evaluated in one context, in order. */
  function Results(reqs: seq<NpcRequirement>, player: Player, npc: Npc, world: WorldInfo): (r: seq<bool>)
    ensures |r| == |reqs|
    ensures forall i :: 0 <= i < |r| ==> r[i] == Evaluate(reqs[i], player, npc, world)
  {
    seq(|reqs|, i requires 0 <= i < |reqs| => Evaluate(reqs[i], player, npc, world))
  }

  /**
   * A gate computed by any combination of NPC requirements' results reads
   * only the NPC of its context.  How the requirement mode combines results
   * is left open: `combine` is arbitrary.
   */
  lemma NpcGateIgnoresPlayerAndWorld(combine: seq<bool> -> bool, reqs: seq<NpcRequirement>, c1: Context, c2: Context)
    requires c1.npc == c2.npc
    ensures combine(Results(reqs, c1.player, c1.npc, c1.world)) == combine(Results(reqs, c2.player, c2.npc, c2.world))
  {
    assert Results(reqs, c1.player, c1.npc, c1.world) == Results(reqs, c2.player, c2.npc, c2.world);
  }

  /**
   * When the engine's gate of dialog `d` is such a combination over NPC
   * requirements, the gate passes in one context iff it passes in any other
   * with the same NPC.
   */
  lemma NpcOnlyDialogGate(caps: ConversationEngine.Capabilities, d: Dialog, combine: seq<bool> -> bool,
                          reqs: seq<NpcRequirement>, c1: Context, c2: Context)
    requires forall c: Context :: caps.meets(d, c) == combine(Results(reqs, c.player, c.npc, c.world))
    requires c1.npc == c2.npc
    ensures caps.meets(d, c1) == caps.meets(d, c2)
  {
    NpcGateIgnoresPlayerAndWorld(combine, reqs, c1, c2);
  }
}
