/** What a read returns right after a create: the positional pairing read back, the
    surplus-match pair the code writes, and the pair the read path expects instead. */
module CreateReadBack {
  import opened Wrappers
  import opened Common
  import opened Ids
  import opened Localization
  import opened Store
  import opened Validation
  import opened QuestionRead
  import opened QuestionCreate

  /** None of `ids` is already used as a row id, a question id of a row, or an overlay key. */
  ghost predicate Unused(db: Db, ids: seq<Id>) {
    && (forall x :: x in ids ==> x !in db.questions)
    && (forall i :: 0 <= i < |db.choices| ==> db.choices[i].id !in ids && db.choices[i].questionId !in ids)
    && (forall i :: 0 <= i < |db.pairs| ==> db.pairs[i].questionId !in ids)
    && (forall k :: k in db.choiceTexts ==> k.0 !in ids)
    && (forall k :: k in db.questionTexts ==> k.0 !in ids)
  }

  ghost predicate DistinctIds(rows: seq<ChoiceRow>) {
    forall i, j :: 0 <= i < j < |rows| ==> rows[i].id != rows[j].id
  }

  lemma FindDistinct(rows: seq<ChoiceRow>, i: nat)
    requires DistinctIds(rows) && i < |rows|
    ensures FindById(rows, Some(rows[i].id)) == Some(rows[i])
  {
    if i > 0 {
      assert rows[0].id != rows[i].id;
      assert rows[1..][i - 1] == rows[i];
      FindDistinct(rows[1..], i - 1);
    }
  }

  /** Pairs with no choice id contribute nothing to the first pass. */
  lemma {:induction false} PairedNone(all: seq<ChoiceRow>, ps: seq<PairRow>)
    requires forall i :: 0 <= i < |ps| ==> ps[i].choiceId.None?
    ensures PairedMatches(all, ps) == Success([])
  {
    if ps != [] {
      PairedNone(all, ps[1..]);
    }
  }

  /** The rows the match ids of resolvable pairs name, in order. */
  function MatchRows(all: seq<ChoiceRow>, a: seq<PairRow>): (r: seq<ChoiceRow>)
    requires forall i :: 0 <= i < |a| ==> Resolvable(all, a[i])
    ensures |r| == |a|
  {
    if a == [] then []
    else
      assert Resolvable(all, a[0]);
      [FindById(all, a[0].matchId).value] + MatchRows(all, a[1..])
  }

  /** Resolvable pairs with a choice id, followed by other pairs, contribute their match
      rows in order ahead of whatever the others contribute. */
  lemma {:induction false} PairedPrefix(all: seq<ChoiceRow>, a: seq<PairRow>, b: seq<PairRow>, rest: seq<ChoiceRow>)
    requires forall i :: 0 <= i < |a| ==> a[i].choiceId.Some? && Resolvable(all, a[i])
    requires PairedMatches(all, b) == Success(rest)
    ensures PairedMatches(all, a + b) == Success(MatchRows(all, a) + rest)
  {
    if a != [] {
      assert (a + b)[0] == a[0];
      assert (a + b)[1..] == a[1..] + b;
      PairedPrefix(all, a[1..], b, rest);
      var x := FindById(all, a[0].matchId).value;
      assert MatchRows(all, a) == [x] + MatchRows(all, a[1..]);
      assert [x] + (MatchRows(all, a[1..]) + rest) == MatchRows(all, a) + rest;
    } else {
      assert a + b == b;
      assert MatchRows(all, a) + rest == rest;
    }
  }

  lemma {:induction false} DistractorsAppend(all: seq<ChoiceRow>, a: seq<PairRow>, b: seq<PairRow>)
    ensures Distractors(all, a + b) == Distractors(all, a) + Distractors(all, b)
  {
    if a != [] {
      var ab := a + b;
      assert ab[0] == a[0] && ab[1..] == a[1..] + b;
      DistractorsAppend(all, a[1..], b);
      assert Distractors(all, ab) == DistractorOf(all, a[0]) + Distractors(all, a[1..] + b);
    } else {
      assert a + b == b;
    }
  }

  lemma {:induction false} DistractorsNone(all: seq<ChoiceRow>, ps: seq<PairRow>)
    requires forall i :: 0 <= i < |ps| ==> ps[i].choiceId.Some?
    ensures Distractors(all, ps) == []
  {
    if ps != [] {
      DistractorsNone(all, ps[1..]);
    }
  }

  /** Distractor pairs whose match ids name rows give those rows back, in order. */
  lemma {:induction false} DistractorsFound(all: seq<ChoiceRow>, ps: seq<PairRow>, ms: seq<ChoiceRow>)
    requires |ps| == |ms|
    requires forall i :: 0 <= i < |ps| ==> ps[i].choiceId.None? && FindById(all, ps[i].matchId) == Some(ms[i])
    ensures Distractors(all, ps) == ms
  {
    if ps != [] {
      DistractorsFound(all, ps[1..], ms[1..]);
      assert ms == [ms[0]] + ms[1..];
    }
  }

  lemma {:induction false} WithoutAppend(xs: seq<ChoiceRow>, ys: seq<ChoiceRow>, zs: seq<ChoiceRow>)
    ensures Without(xs + ys, zs) == Without(xs, zs) + Without(ys, zs)
  {
    if xs != [] {
      assert (xs + ys)[0] == xs[0];
      assert (xs + ys)[1..] == xs[1..] + ys;
      WithoutAppend(xs[1..], ys, zs);
    } else {
      assert xs + ys == ys;
    }
  }

  lemma {:induction false} WithoutDisjoint(xs: seq<ChoiceRow>, zs: seq<ChoiceRow>)
    requires forall x :: x in xs ==> x !in zs
    ensures Without(xs, zs) == xs
  {
    if xs != [] {
      WithoutDisjoint(xs[1..], zs);
      assert xs == [xs[0]] + xs[1..];
    }
  }

  lemma {:induction false} WithoutCovered(xs: seq<ChoiceRow>, zs: seq<ChoiceRow>)
    requires forall x :: x in xs ==> x in zs
    ensures Without(xs, zs) == []
  {
    if xs != [] {
      WithoutCovered(xs[1..], zs);
    }
  }

  /** The first pass over the paired prefix yields the first |cs| matches. */
  lemma PairedPositional(how: Pairing, qid: Id, cs: seq<ChoiceRow>, ms: seq<ChoiceRow>)
    requires |cs| <= |ms| && DistinctIds(cs + ms)
    requires how == Corrected || |cs| == |ms|
    ensures PairedMatches(cs + ms, BuildPairs(how, qid, cs, ms)) == Success(ms[..|cs|])
  {
    var all := cs + ms;
    var pairs := BuildPairs(how, qid, cs, ms);
    var n := |cs|;
    var a := pairs[..n];
    var b := pairs[n..];
    assert pairs == a + b;
    forall i | 0 <= i < n
      ensures Resolvable(all, a[i]) && FindById(all, a[i].matchId) == Some(ms[i])
    {
      assert a[i] == PairRow(qid, Some(cs[i].id), Some(ms[i].id));
      assert all[i] == cs[i] && all[n + i] == ms[i];
      FindDistinct(all, i);
      FindDistinct(all, n + i);
    }
    PairedNone(all, b);
    PairedPrefix(all, a, b, []);
    MatchRowsAre(all, a, ms[..n]);
    assert MatchRows(all, a) + [] == ms[..n];
  }

  lemma {:induction false} MatchRowsAre(all: seq<ChoiceRow>, a: seq<PairRow>, ms: seq<ChoiceRow>)
    requires |a| == |ms|
    requires forall i :: 0 <= i < |a| ==> Resolvable(all, a[i]) && FindById(all, a[i].matchId) == Some(ms[i])
    ensures MatchRows(all, a) == ms
  {
    if a != [] {
      MatchRowsAre(all, a[1..], ms[1..]);
      assert ms == [ms[0]] + ms[1..];
    }
  }

  /** The second pass over the positional pairs yields the surplus matches. */
  lemma DistractorsPositional(how: Pairing, qid: Id, cs: seq<ChoiceRow>, ms: seq<ChoiceRow>)
    requires |cs| <= |ms| && DistinctIds(cs + ms)
    requires how == Corrected || |cs| == |ms|
    ensures Distractors(cs + ms, BuildPairs(how, qid, cs, ms)) == ms[|cs|..]
  {
    var all := cs + ms;
    var pairs := BuildPairs(how, qid, cs, ms);
    var n := |cs|;
    var a := pairs[..n];
    var b := pairs[n..];
    assert pairs == a + b;
    SurplusPairsFound(how, qid, cs, ms);
    DistractorsAppend(all, a, b);
    DistractorsNone(all, a);
    DistractorsFound(all, b, ms[n..]);
  }

  /** Each surplus pair the corrected code writes names its match row in the match slot. */
  lemma SurplusPairsFound(how: Pairing, qid: Id, cs: seq<ChoiceRow>, ms: seq<ChoiceRow>)
    requires |cs| <= |ms| && DistinctIds(cs + ms)
    requires how == Corrected || |cs| == |ms|
    ensures var b := BuildPairs(how, qid, cs, ms)[|cs|..];
      forall i :: 0 <= i < |b| ==> b[i].choiceId.None? && FindById(cs + ms, b[i].matchId) == Some(ms[|cs|..][i])
  {
    var all := cs + ms;
    var n := |cs|;
    var full := BuildPairs(how, qid, cs, ms);
    var b := full[n..];
    forall i | 0 <= i < |b|
      ensures b[i].choiceId.None? && FindById(all, b[i].matchId) == Some(ms[n..][i])
    {
      assert how == Corrected;
      assert b[i] == full[n + i] == PairRow(qid, None, Some(ms[n + i].id));
      assert ms[n..][i] == ms[n + i];
      assert all[n + n + i] == ms[n + i];
      FindDistinct(all, n + n + i);
    }
  }

  /** No choice row is also a match row when all their ids differ. */
  lemma ChoicesNotMatches(cs: seq<ChoiceRow>, ms: seq<ChoiceRow>)
    requires DistinctIds(cs + ms)
    ensures forall x :: x in cs ==> x !in ms
  {
    var all := cs + ms;
    forall x | x in cs
      ensures x !in ms
    {
      var i :| 0 <= i < |cs| && cs[i] == x;
      forall j | 0 <= j < |ms|
        ensures ms[j] != x
      {
        assert all[i] == x && all[|cs| + j] == ms[j];
      }
    }
  }

  /** Reading back positionally built pairs gives the choices and matches back in order,
      when every match has a counterpart choice or distractors carry their id in the match
      slot. */
  lemma ReconstructPositional(how: Pairing, qid: Id, cs: seq<ChoiceRow>, ms: seq<ChoiceRow>)
    requires |cs| <= |ms| && DistinctIds(cs + ms)
    requires how == Corrected || |cs| == |ms|
    ensures Reconstruct(cs + ms, BuildPairs(how, qid, cs, ms)) == Success((cs, ms))
  {
    PairedPositional(how, qid, cs, ms);
    DistractorsPositional(how, qid, cs, ms);
    WithoutMatches(cs, ms);
    ReconstructSplit(cs + ms, BuildPairs(how, qid, cs, ms), ms, |cs|);
  }

  /** The read's result when its first pass yields a prefix of `ms` and its second pass
      the rest. */
  lemma ReconstructSplit(all: seq<ChoiceRow>, pairs: seq<PairRow>, ms: seq<ChoiceRow>, n: nat)
    requires n <= |ms|
    requires PairedMatches(all, pairs) == Success(ms[..n]) && Distractors(all, pairs) == ms[n..]
    ensures Reconstruct(all, pairs) == Success((Without(all, ms), ms))
  {
    assert ms[..n] + ms[n..] == ms;
  }

  /** The rows that are not matches are the choices, when all ids differ. */
  lemma WithoutMatches(cs: seq<ChoiceRow>, ms: seq<ChoiceRow>)
    requires DistinctIds(cs + ms)
    ensures Without(cs + ms, ms) == cs
  {
    WithoutAppend(cs, ms, ms);
    ChoicesNotMatches(cs, ms);
    WithoutDisjoint(cs, ms);
    WithoutCovered(ms, ms);
    assert cs + [] == cs;
  }

  /** The pair the code writes for a surplus match has its id in the choice slot and no
      match id; the read path cannot resolve it and `findFirst().get()` throws. */
  lemma SurplusPairUnresolvable(qid: Id, cs: seq<ChoiceRow>, ms: seq<ChoiceRow>, all: seq<ChoiceRow>, earlier: seq<PairRow>)
    requires |cs| < |ms|
    ensures Reconstruct(all, earlier + BuildPairs(AsWritten, qid, cs, ms)).Failure?
  {
    var pairs := earlier + BuildPairs(AsWritten, qid, cs, ms);
    var k := |earlier| + |cs|;
    assert pairs[k] == PairRow(qid, Some(ms[|cs|].id), None);
    assert !Resolvable(all, pairs[k]);
  }

  lemma IdsUsedValue(t: QuestionType, p: Payload)
    requires Violations(t, p) == {}
    ensures IdsUsed(t, p) == 1 + |ChoicesOf(t, p)| + |MatchesOf(t, p)|
  {
  }

  /** The choice rows a valid create inserts: its choices, then its matches. */
  function CreatedRows(t: QuestionType, p: Payload, supply: seq<Id>): (r: seq<ChoiceRow>)
    requires Violations(t, p) == {} && |supply| >= IdsUsed(t, p)
    ensures |r| == IdsUsed(t, p) - 1
    ensures forall i :: 0 <= i < |r| ==> r[i].id == supply[1 + i] && r[i].questionId == supply[0]
  {
    IdsUsedValue(t, p);
    var cs := ChoicesOf(t, p);
    assert supply[1..][|cs|..] == supply[1 + |cs|..];
    TwoBatchRows(cs, MatchesOf(t, p), supply[0], supply[1..]);
    CreatedChoiceRows(t, p, supply) + CreatedMatchRows(t, p, supply)
  }

  /** Rows made in two batches from one supply carry its ids in order. */
  lemma TwoBatchRows(cs: seq<Choice>, ms: seq<Choice>, qid: Id, s: seq<Id>)
    requires |s| >= |cs| + |ms|
    ensures var r := NewRows(cs, qid, s) + NewRows(ms, qid, s[|cs|..]);
      forall i :: 0 <= i < |r| ==> r[i].id == s[i] && r[i].questionId == qid
  {
  }

  function CreatedChoiceRows(t: QuestionType, p: Payload, supply: seq<Id>): seq<ChoiceRow>
    requires Violations(t, p) == {} && |supply| >= IdsUsed(t, p)
  {
    NewRows(ChoicesOf(t, p), supply[0], supply[1..])
  }

  function CreatedMatchRows(t: QuestionType, p: Payload, supply: seq<Id>): seq<ChoiceRow>
    requires Violations(t, p) == {} && |supply| >= IdsUsed(t, p)
  {
    NewRows(MatchesOf(t, p), supply[0], supply[1 + |ChoicesOf(t, p)|..])
  }

  /** The overlays after two batches of `createChoices` with ids taken in order from one
      supply: the old ones, and new ones for those ids under the locale. */
  lemma TwoBatchesKeys(d: Db, cs: seq<Choice>, ms: seq<Choice>, locale: Option<Locale>, qid: Id, s: seq<Id>)
    requires |s| >= |cs| + |ms|
    ensures var d3 := CreateChoices(CreateChoices(d, cs, locale, qid, s), ms, locale, qid, s[|cs|..]);
      forall k :: k in d3.choiceTexts ==> k in d.choiceTexts || (k.0 in s[..|cs| + |ms|] && Some(k.1) == locale)
  {
    CreateChoicesNewKeys(d, cs, locale, qid, s);
    CreateChoicesNewKeys(CreateChoices(d, cs, locale, qid, s), ms, locale, qid, s[|cs|..]);
    assert s[..|cs| + |ms|] == s[..|cs|] + s[|cs|..][..|ms|];
  }

  /** The overlay the two batches leave for an id that occurs once among those they use. */
  lemma TwoBatchesValue(d: Db, cs: seq<Choice>, ms: seq<Choice>, l: Locale, qid: Id, s: seq<Id>, i: nat)
    requires |s| >= |cs| + |ms| && i < |cs| + |ms|
    requires forall j :: 0 <= j < |cs| + |ms| && j != i ==> s[j] != s[i]
    ensures var d3 := CreateChoices(CreateChoices(d, cs, Some(l), qid, s), ms, Some(l), qid, s[|cs|..]);
      (s[i], l) in d3.choiceTexts && d3.choiceTexts[(s[i], l)] == (cs + ms)[i].cValue
  {
    if i < |cs| {
      FirstBatchValue(d, cs, ms, l, qid, s, i);
    } else {
      SecondBatchValue(d, cs, ms, l, qid, s, i - |cs|);
    }
  }

  lemma FirstBatchValue(d: Db, cs: seq<Choice>, ms: seq<Choice>, l: Locale, qid: Id, s: seq<Id>, i: nat)
    requires |s| >= |cs| + |ms| && i < |cs|
    requires forall j :: 0 <= j < |cs| + |ms| && j != i ==> s[j] != s[i]
    ensures var d3 := CreateChoices(CreateChoices(d, cs, Some(l), qid, s), ms, Some(l), qid, s[|cs|..]);
      (s[i], l) in d3.choiceTexts && d3.choiceTexts[(s[i], l)] == cs[i].cValue
  {
    var s2 := s[|cs|..];
    assert s[i] !in s[i + 1..|cs|] by {
      forall j | i + 1 <= j < |cs| ensures s[j] != s[i] {
        assert s[j] != s[i];
      }
    }
    assert s[i] !in s2[..|ms|] by {
      forall j | 0 <= j < |ms| ensures s2[j] != s[i] {
        assert s2[j] == s[|cs| + j];
      }
    }
    CreateChoicesValues(d, cs, l, qid, s, i);
    CreateChoicesKeepsOthers(CreateChoices(d, cs, Some(l), qid, s), ms, Some(l), qid, s2);
  }

  lemma SecondBatchValue(d: Db, cs: seq<Choice>, ms: seq<Choice>, l: Locale, qid: Id, s: seq<Id>, j: nat)
    requires |s| >= |cs| + |ms| && j < |ms|
    requires forall m :: 0 <= m < |cs| + |ms| && m != |cs| + j ==> s[m] != s[|cs| + j]
    ensures var d3 := CreateChoices(CreateChoices(d, cs, Some(l), qid, s), ms, Some(l), qid, s[|cs|..]);
      (s[|cs| + j], l) in d3.choiceTexts && d3.choiceTexts[(s[|cs| + j], l)] == ms[j].cValue
  {
    var s2 := s[|cs|..];
    assert s2[j] == s[|cs| + j];
    assert s2[j] !in s2[j + 1..|ms|] by {
      forall m | j + 1 <= m < |ms| ensures s2[m] != s2[j] {
        assert s2[m] == s[|cs| + m];
      }
    }
    CreateChoicesValues(CreateChoices(d, cs, Some(l), qid, s), ms, l, qid, s2, j);
  }

  /** The overlays a create leaves are those of two batches over the base-row write. */
  lemma CreateWritesTexts(how: Pairing, db: Db, categories: seq<string>, t: QuestionType,
                          locale: Option<Locale>, creator: string, now: Stamp, p: Payload, supply: seq<Id>)
    requires Violations(t, p) == {} && |supply| >= IdsUsed(t, p)
    ensures var cs := ChoicesOf(t, p);
      CreateWrites(how, db, categories, t, locale, creator, now, p, supply).choiceTexts
        == CreateChoices(CreateChoices(db, cs, locale, supply[0], supply[1..]), MatchesOf(t, p), locale,
                         supply[0], supply[1..][|cs|..]).choiceTexts
  {
    ValidIff(t, p);
    var qid := supply[0];
    var db1 := db.(questions := db.questions[qid := BaseRow(qid, t, creator, now, p)],
                   questionTexts := if locale.Some? then db.questionTexts[(qid, locale.value) := QuestionText(p.text, p.explanation)]
                                    else db.questionTexts);
    var cs := ChoicesOf(t, p);
    var ms := MatchesOf(t, p);
    assert supply[1..][|cs|..] == supply[1 + |cs|..];
    CreateChoicesTexts(db1, db, cs, locale, qid, supply[1..]);
    CreateChoicesTexts(CreateChoices(db1, cs, locale, qid, supply[1..]), CreateChoices(db, cs, locale, qid, supply[1..]),
                       ms, locale, qid, supply[1 + |cs|..]);
  }

  /** The overlays `createChoices` leaves depend only on the overlays it starts from. */
  lemma {:induction false} CreateChoicesTexts(a: Db, b: Db, cs: seq<Choice>, locale: Option<Locale>, qid: Id, s: seq<Id>)
    requires |s| >= |cs| && a.choiceTexts == b.choiceTexts
    ensures CreateChoices(a, cs, locale, qid, s).choiceTexts == CreateChoices(b, cs, locale, qid, s).choiceTexts
    decreases |cs|
  {
    if cs != [] {
      var row := NewRow(cs[0], qid, s[0]);
      CreateChoicesTexts(InsertChoice(a, row, locale), InsertChoice(b, row, locale), cs[1..], locale, qid, s[1..]);
    }
  }

  /** A create adds overlays only under its locale. */
  lemma CreateOverlayKeys(how: Pairing, db: Db, categories: seq<string>, t: QuestionType,
                          locale: Option<Locale>, creator: string, now: Stamp, p: Payload, supply: seq<Id>)
    requires Violations(t, p) == {} && |supply| >= IdsUsed(t, p)
    ensures forall k :: k in CreateWrites(how, db, categories, t, locale, creator, now, p, supply).choiceTexts ==>
      k in db.choiceTexts || Some(k.1) == locale
  {
    IdsUsedValue(t, p);
    CreateWritesTexts(how, db, categories, t, locale, creator, now, p, supply);
    TwoBatchesKeys(db, ChoicesOf(t, p), MatchesOf(t, p), locale, supply[0], supply[1..]);
  }

  /** The i-th row a create inserts carries the value of the i-th payload item. */
  lemma CreatedRowValue(t: QuestionType, p: Payload, supply: seq<Id>, i: nat)
    requires Violations(t, p) == {} && |supply| >= IdsUsed(t, p) && i < IdsUsed(t, p) - 1
    ensures i < |ChoicesOf(t, p) + MatchesOf(t, p)|
    ensures CreatedRows(t, p, supply)[i].cValue == (ChoicesOf(t, p) + MatchesOf(t, p))[i].cValue
  {
    IdsUsedValue(t, p);
    var cs := ChoicesOf(t, p);
    if i >= |cs| {
      assert CreatedRows(t, p, supply)[i] == CreatedMatchRows(t, p, supply)[i - |cs|];
    }
  }

  /** Distinct fresh ids: no other new row shares the i-th new row's id. */
  lemma SupplyTailDistinct(supply: seq<Id>, n: nat, i: nat)
    requires n <= |supply| && Distinct(supply[..n]) && i < n - 1
    ensures forall j :: 0 <= j < n - 1 && j != i ==> supply[1..][j] != supply[1..][i]
  {
    forall j | 0 <= j < n - 1 && j != i ensures supply[1..][j] != supply[1..][i] {
      assert supply[..n][1 + i] == supply[1..][i] && supply[..n][1 + j] == supply[1..][j];
    }
  }

  /** Under a locale a create with distinct ids writes, for each new row, an overlay with
      the row's own value. */
  lemma CreateOverlayValues(how: Pairing, db: Db, categories: seq<string>, t: QuestionType,
                            l: Locale, creator: string, now: Stamp, p: Payload, supply: seq<Id>, i: nat)
    requires Violations(t, p) == {} && |supply| >= IdsUsed(t, p)
    requires Distinct(supply[..IdsUsed(t, p)]) && i < IdsUsed(t, p) - 1
    ensures var r := CreateWrites(how, db, categories, t, Some(l), creator, now, p, supply);
      && (supply[1 + i], l) in r.choiceTexts
      && r.choiceTexts[(supply[1 + i], l)] == CreatedRows(t, p, supply)[i].cValue
  {
    var cs := ChoicesOf(t, p);
    var ms := MatchesOf(t, p);
    IdsUsedValue(t, p);
    CreateWritesTexts(how, db, categories, t, Some(l), creator, now, p, supply);
    SupplyTailDistinct(supply, IdsUsed(t, p), i);
    TwoBatchesValue(db, cs, ms, l, supply[0], supply[1..], i);
    CreatedRowValue(t, p, supply, i);
  }

  lemma PairsOfNone(pairs: seq<PairRow>, qid: Id)
    requires forall i :: 0 <= i < |pairs| ==> pairs[i].questionId != qid
    ensures PairsOf(pairs, qid) == []
  {
  }

  lemma PairsOfAll(pairs: seq<PairRow>, qid: Id)
    requires forall i :: 0 <= i < |pairs| ==> pairs[i].questionId == qid
    ensures PairsOf(pairs, qid) == pairs
  {
  }

  /** The tables a create writes, in terms of the rows it creates. */
  lemma CreateTables(how: Pairing, db: Db, categories: seq<string>, t: QuestionType,
                     locale: Option<Locale>, creator: string, now: Stamp, p: Payload, supply: seq<Id>)
    requires Violations(t, p) == {} && |supply| >= IdsUsed(t, p)
    ensures var r := CreateWrites(how, db, categories, t, locale, creator, now, p, supply);
      && r.choices == db.choices + CreatedRows(t, p, supply)
      && (t == MatchTheFollowing ==>
            && |CreatedChoiceRows(t, p, supply)| <= |CreatedMatchRows(t, p, supply)|
            && r.pairs == db.pairs + BuildPairs(how, supply[0], CreatedChoiceRows(t, p, supply), CreatedMatchRows(t, p, supply)))
      && (t != MatchTheFollowing ==> CreatedMatchRows(t, p, supply) == [])
  {
    var cRows := CreatedChoiceRows(t, p, supply);
    var mRows := CreatedMatchRows(t, p, supply);
    assert CreatedRows(t, p, supply) == cRows + mRows;
    AppendAssoc(db.choices, cRows, mRows);
  }

  lemma AppendAssoc<T>(a: seq<T>, b: seq<T>, c: seq<T>)
    ensures a + b + c == a + (b + c)
  {
  }

  /** The rows of the new question are exactly the rows the create inserted. */
  lemma CreatedRowsOf(how: Pairing, db: Db, categories: seq<string>, t: QuestionType,
                      locale: Option<Locale>, creator: string, now: Stamp, p: Payload, supply: seq<Id>)
    requires Violations(t, p) == {} && |supply| >= IdsUsed(t, p)
    requires Unused(db, supply[..IdsUsed(t, p)])
    ensures var r := CreateWrites(how, db, categories, t, locale, creator, now, p, supply);
      RowsOf(r.choices, supply[0]) == CreatedRows(t, p, supply)
  {
    var qid := supply[0];
    var rows := CreatedRows(t, p, supply);
    CreateTables(how, db, categories, t, locale, creator, now, p, supply);
    assert qid in supply[..IdsUsed(t, p)];
    RowsOfAppend(db.choices, rows, qid);
    RowsOfNone(db.choices, qid);
    RowsOfAll(rows, qid);
  }

  /** The ids a create hands out to its rows are pairwise distinct when the supply's are. */
  lemma CreatedDistinct(t: QuestionType, p: Payload, supply: seq<Id>)
    requires Violations(t, p) == {} && |supply| >= IdsUsed(t, p)
    requires Distinct(supply[..IdsUsed(t, p)])
    ensures DistinctIds(CreatedRows(t, p, supply))
  {
    var rows := CreatedRows(t, p, supply);
    forall i, j | 0 <= i < j < |rows| ensures rows[i].id != rows[j].id {
      assert supply[..IdsUsed(t, p)][1 + i] == rows[i].id;
      assert supply[..IdsUsed(t, p)][1 + j] == rows[j].id;
    }
  }

  /** Each new row, resolved for the create's locale, is the row itself. */
  lemma CreatedResolved(how: Pairing, db: Db, categories: seq<string>, t: QuestionType,
                        locale: Option<Locale>, creator: string, now: Stamp, p: Payload, supply: seq<Id>)
    requires Violations(t, p) == {} && |supply| >= IdsUsed(t, p)
    requires Distinct(supply[..IdsUsed(t, p)])
    ensures var r := CreateWrites(how, db, categories, t, locale, creator, now, p, supply);
      var rows := CreatedRows(t, p, supply);
      ResolvedRows(rows, r.choiceTexts, true, locale) == rows
  {
    var r := CreateWrites(how, db, categories, t, locale, creator, now, p, supply);
    var rows := CreatedRows(t, p, supply);
    forall i | 0 <= i < |rows|
      ensures Mask(ResolvedChoice(rows[i], r.choiceTexts, locale), true) == rows[i]
    {
      if locale.Some? {
        CreateOverlayValues(how, db, categories, t, locale.value, creator, now, p, supply, i);
        assert WithValue(rows[i], rows[i].cValue) == rows[i];
      }
    }
  }

  /** Listing the new question's choices gives back exactly the rows the create inserted,
      in order, once each, under the create's own locale. */
  lemma CreatedListing(how: Pairing, db: Db, categories: seq<string>, t: QuestionType,
                       locale: Option<Locale>, creator: string, now: Stamp, p: Payload, supply: seq<Id>)
    requires Violations(t, p) == {} && |supply| >= IdsUsed(t, p)
    requires Distinct(supply[..IdsUsed(t, p)]) && Unused(db, supply[..IdsUsed(t, p)])
    ensures var r := CreateWrites(how, db, categories, t, locale, creator, now, p, supply);
      ListChoices(r, true, supply[0], locale) == CreatedRows(t, p, supply)
  {
    var r := CreateWrites(how, db, categories, t, locale, creator, now, p, supply);
    var rows := CreatedRows(t, p, supply);
    var ids := supply[..IdsUsed(t, p)];
    CreatedRowsOf(how, db, categories, t, locale, creator, now, p, supply);
    if locale.Some? {
      CreateOverlayKeys(how, db, categories, t, locale, creator, now, p, supply);
      forall i, m | 0 <= i < |rows| && (rows[i].id, m) in r.choiceTexts
        ensures m == locale.value
      {
        assert ids[1 + i] == rows[i].id;
      }
    }
    ListRowsOnce(rows, r.choiceTexts, true, locale);
    CreatedResolved(how, db, categories, t, locale, creator, now, p, supply);
  }

  /** The pairs of the new question are exactly the pairs the create wrote. */
  lemma CreatedPairsOf(how: Pairing, db: Db, categories: seq<string>, t: QuestionType,
                       locale: Option<Locale>, creator: string, now: Stamp, p: Payload, supply: seq<Id>)
    requires Violations(t, p) == {} && |supply| >= IdsUsed(t, p) && t == MatchTheFollowing
    requires Unused(db, supply[..IdsUsed(t, p)])
    ensures var r := CreateWrites(how, db, categories, t, locale, creator, now, p, supply);
      && |CreatedChoiceRows(t, p, supply)| <= |CreatedMatchRows(t, p, supply)|
      && PairsOf(r.pairs, supply[0])
           == BuildPairs(how, supply[0], CreatedChoiceRows(t, p, supply), CreatedMatchRows(t, p, supply))
  {
    var qid := supply[0];
    CreateTables(how, db, categories, t, locale, creator, now, p, supply);
    var built := BuildPairs(how, qid, CreatedChoiceRows(t, p, supply), CreatedMatchRows(t, p, supply));
    assert qid in supply[..IdsUsed(t, p)];
    PairsOfAppend(db.pairs, built, qid);
    PairsOfNone(db.pairs, qid);
    PairsOfAll(built, qid);
  }

  /** A valid create on fresh, distinct ids reads back what it wrote: the payload's text
      and explanation under the create's locale, its type, answer and author, and, in
      order, the choice rows and the match rows it inserted. For MATCH_THE_FOLLOWING this
      needs either as many matches as choices or surplus pairs that carry their id in the
      match slot. */
  lemma CreateReadsBack(how: Pairing, db: Db, categories: seq<string>, t: QuestionType,
                        locale: Option<Locale>, creator: string, now: Stamp, p: Payload, supply: seq<Id>)
    requires Violations(t, p) == {} && |supply| >= IdsUsed(t, p)
    requires Distinct(supply[..IdsUsed(t, p)]) && Unused(db, supply[..IdsUsed(t, p)])
    requires how == Corrected || |ChoicesOf(t, p)| == |MatchesOf(t, p)| || t != MatchTheFollowing
    ensures var res := CreateWith(how, db, categories, t, locale, creator, now, p, supply).1;
      && res.Success? && res.value.Some?
      && var v := res.value.value;
      && v.id == supply[0] && v.qtype == t && v.answer == p.answer
      && v.text == p.text && v.explanation == p.explanation
      && v.createdBy == creator && v.createdAt == now && v.updatedAt.None?
      && v.choices == (if HasChoices(t) then Some(CreatedChoiceRows(t, p, supply)) else None)
      && v.matches == (if t == MatchTheFollowing then Some(CreatedMatchRows(t, p, supply)) else None)
  {
    var qid := supply[0];
    var r := CreateWrites(how, db, categories, t, locale, creator, now, p, supply);
    CreatedHeader(how, db, categories, t, locale, creator, now, p, supply);
    CreatedFill(how, db, categories, t, locale, creator, now, p, supply);
  }

  /** The view of the new question before its choices are filled in. */
  function HeaderOf(t: QuestionType, creator: string, now: Stamp, p: Payload, qid: Id): QuestionView {
    QuestionView(qid, p.text, p.explanation, p.answer, t, creator, now, None, None, None)
  }

  lemma CreatedHeader(how: Pairing, db: Db, categories: seq<string>, t: QuestionType,
                      locale: Option<Locale>, creator: string, now: Stamp, p: Payload, supply: seq<Id>)
    requires Violations(t, p) == {} && |supply| >= IdsUsed(t, p)
    ensures var r := CreateWrites(how, db, categories, t, locale, creator, now, p, supply);
      && supply[0] in r.questions
      && ViewOf(ResolvedQuestion(r, supply[0], locale)) == HeaderOf(t, creator, now, p, supply[0])
  {
  }

  /** The choices and matches the read fills into the new question's view. */
  lemma CreatedFill(how: Pairing, db: Db, categories: seq<string>, t: QuestionType,
                    locale: Option<Locale>, creator: string, now: Stamp, p: Payload, supply: seq<Id>)
    requires Violations(t, p) == {} && |supply| >= IdsUsed(t, p)
    requires Distinct(supply[..IdsUsed(t, p)]) && Unused(db, supply[..IdsUsed(t, p)])
    requires how == Corrected || |ChoicesOf(t, p)| == |MatchesOf(t, p)| || t != MatchTheFollowing
    ensures var r := CreateWrites(how, db, categories, t, locale, creator, now, p, supply);
      var h := HeaderOf(t, creator, now, p, supply[0]);
      FillChoices(r, locale, h) == Success(h.(
        choices := if HasChoices(t) then Some(CreatedChoiceRows(t, p, supply)) else None,
        matches := if t == MatchTheFollowing then Some(CreatedMatchRows(t, p, supply)) else None))
  {
    var qid := supply[0];
    var r := CreateWrites(how, db, categories, t, locale, creator, now, p, supply);
    var cRows := CreatedChoiceRows(t, p, supply);
    var mRows := CreatedMatchRows(t, p, supply);
    CreateTables(how, db, categories, t, locale, creator, now, p, supply);
    CreatedListing(how, db, categories, t, locale, creator, now, p, supply);
    if t == MatchTheFollowing {
      CreatedPairsOf(how, db, categories, t, locale, creator, now, p, supply);
      CreatedDistinct(t, p, supply);
      ReconstructPositional(how, qid, cRows, mRows);
    } else if HasChoices(t) {
      assert cRows + mRows == cRows;
    }
  }

  /** `create` as written reads back what it wrote whenever no match is surplus. */
  lemma CreateThenRead(db: Db, categories: seq<string>, t: QuestionType, locale: Option<Locale>,
                       creator: string, now: Stamp, p: Payload, supply: seq<Id>)
    requires Violations(t, p) == {} && |supply| >= IdsUsed(t, p)
    requires Distinct(supply[..IdsUsed(t, p)]) && Unused(db, supply[..IdsUsed(t, p)])
    requires t == MatchTheFollowing ==> |Items(p.choices)| == |Items(p.matches)|
    ensures var res := Create(db, categories, t, locale, creator, now, p, supply).1;
      && res.Success? && res.value.Some?
      && var v := res.value.value;
      && v.text == p.text && v.explanation == p.explanation && v.qtype == t
      && v.choices == (if HasChoices(t) then Some(CreatedChoiceRows(t, p, supply)) else None)
      && v.matches == (if t == MatchTheFollowing then Some(CreatedMatchRows(t, p, supply)) else None)
  {
    CreateReadsBack(AsWritten, db, categories, t, locale, creator, now, p, supply);
  }

  /** `create` as written cannot read back a MATCH_THE_FOLLOWING question with more matches
      than choices: its surplus pair names no match, and the read throws after the writes,
      which stay. */
  lemma SurplusCreateFails(db: Db, categories: seq<string>, locale: Option<Locale>,
                           creator: string, now: Stamp, p: Payload, supply: seq<Id>)
    requires Violations(MatchTheFollowing, p) == {} && |supply| >= IdsUsed(MatchTheFollowing, p)
    requires |Items(p.choices)| < |Items(p.matches)|
    ensures var (db', res) := Create(db, categories, MatchTheFollowing, locale, creator, now, p, supply);
      && db' == CreateWrites(AsWritten, db, categories, MatchTheFollowing, locale, creator, now, p, supply)
      && res == Failure(NoSuchElement)
  {
    SurplusPairsUnreadable(db, categories, locale, creator, now, p, supply);
    ReadFailsOnPairs(CreateWrites(AsWritten, db, categories, MatchTheFollowing, locale, creator, now, p, supply),
                     supply[0], locale);
  }

  /** The pairs of a surplus create as written: the read's pass over them fails. */
  lemma SurplusPairsUnreadable(db: Db, categories: seq<string>, locale: Option<Locale>,
                               creator: string, now: Stamp, p: Payload, supply: seq<Id>)
    requires Violations(MatchTheFollowing, p) == {} && |supply| >= IdsUsed(MatchTheFollowing, p)
    requires |Items(p.choices)| < |Items(p.matches)|
    ensures var r := CreateWrites(AsWritten, db, categories, MatchTheFollowing, locale, creator, now, p, supply);
      Reconstruct(ListChoices(r, true, supply[0], locale), PairsOf(r.pairs, supply[0])).Failure?
  {
    var t := MatchTheFollowing;
    var qid := supply[0];
    var r := CreateWrites(AsWritten, db, categories, t, locale, creator, now, p, supply);
    var cRows := CreatedChoiceRows(t, p, supply);
    var mRows := CreatedMatchRows(t, p, supply);
    CreateTables(AsWritten, db, categories, t, locale, creator, now, p, supply);
    var built := BuildPairs(AsWritten, qid, cRows, mRows);
    PairsOfAppend(db.pairs, built, qid);
    PairsOfAll(built, qid);
    SurplusPairUnresolvable(qid, cRows, mRows, ListChoices(r, true, qid, locale), PairsOf(db.pairs, qid));
  }
}
