/** Deck-authored data: a question with its options in authored order, and a subject
    (deck) as the loader builds it. */
module Deck {

  import opened Wrappers

  /** One multiple-choice question as the deck file gives it. `correctAnswer` indexes
      `options` in authored order; nothing checks that it is in range. */
  datatype Question = Question(
    question: string,
    options: seq<string>,
    correctAnswer: int,
    explanation: Option<string>,
    image: Option<string>)

  /** A subject card: identifier, display fields and its ordered questions. */
  datatype Subject = Subject(
    id: string,
    name: string,
    icon: string,
    description: string,
    questions: seq<Question>)
}
