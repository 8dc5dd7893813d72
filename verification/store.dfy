/** The question bank's tables as immutable values. Each service operation is a function
    from one `Db` to the next. */
module Store {
  import opened Wrappers
  import opened Common
  import opened Ids
  import opened Localization
  import Catalog

  /** The question types. `SingleLine` stands for every type that is not a choice type:
      the services treat them all alike. */
  datatype QuestionType = ChooseTheBest | MultiChoice | MatchTheFollowing | SingleLine

  /** The types whose answer is carried by choices. */
  predicate HasChoices(t: QuestionType) {
    t == ChooseTheBest || t == MultiChoice || t == MatchTheFollowing
  }

  /** A `question` row. */
  datatype QuestionRow = QuestionRow(
    id: Id,
    text: string,
    explanation: Option<string>,
    qtype: QuestionType,
    answer: Option<string>,
    createdAt: Stamp,
    createdBy: string,
    modifiedAt: Option<Stamp>,
    modifiedBy: Option<string>)

  /** A `question_localized` row's text columns. */
  datatype QuestionText = QuestionText(text: string, explanation: Option<string>)

  /** A `question_choice` row. Matches are stored as choice rows too. */
  datatype ChoiceRow = ChoiceRow(id: Id, questionId: Id, cValue: string, isAnswer: Option<bool>)

  /** A `matches` row: a choice paired with its match, or (choice id null) a distractor. */
  datatype PairRow = PairRow(questionId: Id, choiceId: Option<Id>, matchId: Option<Id>)

  /** A choice or match as a caller sends it: no id means "new". */
  datatype Choice = Choice(id: Option<Id>, cValue: string, isAnswer: Option<bool>)

  /** The question a caller sends to create or update. */
  datatype Payload = Payload(
    text: string,
    explanation: Option<string>,
    answer: Option<string>,
    choices: Option<seq<Choice>>,
    matches: Option<seq<Choice>>)

  /** The question a read returns. */
  datatype QuestionView = QuestionView(
    id: Id,
    text: string,
    explanation: Option<string>,
    answer: Option<string>,
    qtype: QuestionType,
    createdBy: string,
    createdAt: Stamp,
    updatedAt: Option<Stamp>,
    choices: Option<seq<ChoiceRow>>,
    matches: Option<seq<ChoiceRow>>)

  datatype Db = Db(
    questions: map<Id, QuestionRow>,
    questionTexts: map<(Id, Locale), QuestionText>,
    choices: seq<ChoiceRow>,
    choiceTexts: map<(Id, Locale), string>,
    pairs: seq<PairRow>,
    questionCategories: set<(Id, string)>,
    questionTags: set<(Id, string)>,
    categories: Catalog.Catalog,
    tags: Catalog.Catalog)

  /** Every base row is stored under its own id, as the `question` table's primary key. */
  ghost predicate Keyed(db: Db) {
    forall q :: q in db.questions ==> db.questions[q].id == q
  }

  /** The rows of question `qid` among `rows`, in table order. */
  function RowsOf(rows: seq<ChoiceRow>, qid: Id): (r: seq<ChoiceRow>)
    ensures |r| <= |rows|
    ensures forall x :: x in r <==> x in rows && x.questionId == qid
  {
    if rows == [] then []
    else (if rows[0].questionId == qid then [rows[0]] else []) + RowsOf(rows[1..], qid)
  }

  lemma RowsOfAppend(a: seq<ChoiceRow>, b: seq<ChoiceRow>, qid: Id)
    ensures RowsOf(a + b, qid) == RowsOf(a, qid) + RowsOf(b, qid)
  {
    if a == [] {
      assert a + b == b;
    } else {
      assert (a + b)[1..] == a[1..] + b;
      RowsOfAppend(a[1..], b, qid);
    }
  }

  lemma RowsOfAll(rows: seq<ChoiceRow>, qid: Id)
    requires forall i :: 0 <= i < |rows| ==> rows[i].questionId == qid
    ensures RowsOf(rows, qid) == rows
  {
  }

  lemma RowsOfNone(rows: seq<ChoiceRow>, qid: Id)
    requires forall i :: 0 <= i < |rows| ==> rows[i].questionId != qid
    ensures RowsOf(rows, qid) == []
  {
  }

  /** The pair rows of question `qid`, in table order. */
  function PairsOf(pairs: seq<PairRow>, qid: Id): (r: seq<PairRow>)
    ensures forall x :: x in r <==> x in pairs && x.questionId == qid
  {
    if pairs == [] then []
    else (if pairs[0].questionId == qid then [pairs[0]] else []) + PairsOf(pairs[1..], qid)
  }

  lemma PairsOfAppend(a: seq<PairRow>, b: seq<PairRow>, qid: Id)
    ensures PairsOf(a + b, qid) == PairsOf(a, qid) + PairsOf(b, qid)
  {
    if a == [] {
      assert a + b == b;
    } else {
      assert (a + b)[1..] == a[1..] + b;
      PairsOfAppend(a[1..], b, qid);
    }
  }

  /** The ids of some rows, in order. */
  function IdsOf(rows: seq<ChoiceRow>): (r: seq<Id>)
    ensures |r| == |rows| && forall i :: 0 <= i < |rows| ==> r[i] == rows[i].id
  {
    seq(|rows|, i requires 0 <= i < |rows| => rows[i].id)
  }

  /** The set of ids of the rows of question `qid`. */
  function IdSetOf(rows: seq<ChoiceRow>, qid: Id): (r: set<Id>)
    ensures forall x :: x in r <==> exists i :: 0 <= i < |rows| && rows[i].questionId == qid && rows[i].id == x
  {
    set i | 0 <= i < |rows| && rows[i].questionId == qid :: rows[i].id
  }
}
