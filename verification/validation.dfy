/** `getViolations`: field checks first, and the type's business rules only when the fields
    are clean. Violations are the messages they carry. */
module Validation {
  import opened Wrappers
  import opened Store

  const QuestionMandatory := "question is mandatory"
  const NoChoices := "No choices are provided"
  const NoMatches := "No matches are provided"
  const NotEnoughMatches := "Not Enough Matches"
  const MinimumChoices := "Minimum 2 choices"
  const AnswerRequired := "At-least One Answer should be available"
  const AnswerNotEmpty := "Answer should not be empty"

  /** `@NotBlank`: `trim()` removes every character up to U+0020, so text is blank when it
      has no other character. */
  predicate IsBlank(s: string) {
    forall i :: 0 <= i < |s| ==> s[i] <= ' '
  }

  /** The bean-validation check of the payload's fields. */
  function FieldViolations(p: Payload): set<string> {
    if IsBlank(p.text) then {QuestionMandatory} else {}
  }

  /** A list that is null or empty. */
  predicate Absent(xs: Option<seq<Choice>>) {
    xs.None? || |xs.value| == 0
  }

  /** Some item is flagged `isAnswer == TRUE` (a null flag does not count). */
  predicate HasAnswer(cs: seq<Choice>) {
    exists i :: 0 <= i < |cs| && cs[i].isAnswer == Some(true)
  }

  function Violations(t: QuestionType, p: Payload): (r: set<string>)
    ensures FieldViolations(p) != {} ==> r == FieldViolations(p)
    ensures FieldViolations(p) == {} && t == MatchTheFollowing ==>
      && (NoChoices in r <==> Absent(p.choices))
      && (NoMatches in r <==> Absent(p.matches))
      && (NotEnoughMatches in r <==>
            !Absent(p.choices) && !Absent(p.matches) && |p.choices.value| > |p.matches.value|)
      && r <= {NoChoices, NoMatches, NotEnoughMatches}
    ensures FieldViolations(p) == {} && (t == MultiChoice || t == ChooseTheBest) ==>
      && (MinimumChoices in r <==> p.choices.None? || |p.choices.value| < 2)
      && (AnswerRequired in r <==> p.choices.Some? && |p.choices.value| >= 2 && !HasAnswer(p.choices.value))
      && |r| <= 1
    ensures FieldViolations(p) == {} && !HasChoices(t) ==>
      r == if p.answer.None? then {AnswerNotEmpty} else {}
  {
    var fields := FieldViolations(p);
    if fields != {} then fields
    else match t
      case MatchTheFollowing =>
        var missing := (if Absent(p.choices) then {NoChoices} else {})
                       + (if Absent(p.matches) then {NoMatches} else {});
        if missing == {} && |p.choices.value| > |p.matches.value| then {NotEnoughMatches} else missing
      case MultiChoice | ChooseTheBest =>
        if p.choices.None? || |p.choices.value| < 2 then {MinimumChoices}
        else if !HasAnswer(p.choices.value) then {AnswerRequired}
        else {}
      case SingleLine =>
        if p.answer.None? then {AnswerNotEmpty} else {}
  }

  /** What a payload must look like for a type to pass the business rules. */
  predicate WellShaped(t: QuestionType, p: Payload) {
    match t
    case MatchTheFollowing =>
      !Absent(p.choices) && !Absent(p.matches) && |p.choices.value| <= |p.matches.value|
    case MultiChoice | ChooseTheBest =>
      p.choices.Some? && |p.choices.value| >= 2 && HasAnswer(p.choices.value)
    case SingleLine => p.answer.Some?
  }

  /** No violation at all exactly when the text is not blank and the payload is well shaped
      for its type. */
  lemma ValidIff(t: QuestionType, p: Payload)
    ensures Violations(t, p) == {} <==> !IsBlank(p.text) && WellShaped(t, p)
  {
    if !IsBlank(p.text) && t == MatchTheFollowing {
      if Absent(p.choices) {
        assert NoChoices in Violations(t, p);
      }
    }
  }
}
