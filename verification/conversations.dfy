/** The transient screen the engine hands back to the game for rendering. */
module Conversations {

  datatype ConversationType = Single | TopicList

  /**
   * One selectable answer: an option position of the shown dialog, or a root
   * dialog ID in a topic list, or -1 for the synthetic end-conversation answer.
   */
  datatype Answer = Answer(index: int, text: string, tag: string)

  /** A screen: one dialog (`Single`) or the list of available topics (`TopicList`). */
  datatype Conversation = Conversation(
    id: int,
    title: string,
    text: string,
    tag: string,
    kind: ConversationType,
    answers: seq<Answer>)
}
