/**
 * The three context collaborators a conversation is held in: the NPC, the
 * player and the world information.  The engine never inspects them; it only
 * hands them to requirement, localization and notification code, so each is an
 * opaque handle here.
 */
module Collaborators {

  datatype Npc = Npc(handle: nat)

  datatype Player = Player(handle: nat)

  datatype WorldInfo = WorldInfo(handle: nat)

  /** The (npc, player, world) triple of one call, including the game state behind it. */
  datatype Context = Context(npc: Npc, player: Player, world: WorldInfo)
}
