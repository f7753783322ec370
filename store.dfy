/** The session's store logic (tcp_session.hpp): process_payload converts
    a decoded batch to svg drawables and merges it into the shared table,
    marking unchanged entries as already rendered, and
    removeRenamedDuplicates collapses entries of equal content stored under
    different ids. */
module Store {
  import opened Basics
  import opened OrderedMap
  import opened JsonValue
  import opened Drawables
  import opened Decoder
  import opened SvgBuilder

  /** draw_items_t: the drawables by id, in ascending id order. */
  type Table = Entries<DrawItem>

  // ---------------------------------------------------------------------
  // removeRenamedDuplicates

  /** find_if over the entries from position j on: the first one whose
      content equals that of entry i. */
  function FindDup(t: Table, i: nat, j: nat): (r: Option<nat>)
    requires i < j <= |t|
    ensures r.Some? ==> j <= r.value < |t| && IsEqualStoredData(t[r.value].1, t[i].1)
    ensures r.Some? ==> forall p :: j <= p < r.value ==> !IsEqualStoredData(t[p].1, t[i].1)
    ensures r.None? ==> forall p :: j <= p < |t| ==> !IsEqualStoredData(t[p].1, t[i].1)
    decreases |t| - j
  {
    if j == |t| then None
    else if IsEqualStoredData(t[j].1, t[i].1) then Some(j)
    else FindDup(t, i, j + 1)
  }

  function WithFlag(e: (string, DrawItem), rendered: bool): (string, DrawItem) {
    (e.0, e.1.(alreadyRendered := rendered))
  }

  /** The pass from position i on, with the loop guard corrected to stop
      once no entry follows the current one. Of a content-equal pair the
      entry with the strictly earlier created_at is erased, otherwise the
      later-keyed one; the survivor takes the OR of both flags. */
  function Dedup(t: Table, i: nat): Table
    decreases |t| - i
  {
    if i + 1 >= |t| then t
    else match FindDup(t, i, i + 1)
      case None => Dedup(t, i + 1)
      case Some(j) =>
        var rendered := t[i].1.alreadyRendered || t[j].1.alreadyRendered;
        if t[i].1.stamp.createdAt < t[j].1.stamp.createdAt then
          Dedup(RemoveAt(t[j := WithFlag(t[j], rendered)], i), i)
        else
          Dedup(RemoveAt(t[i := WithFlag(t[i], rendered)], j), i + 1)
  }

  /** The pass exactly as written: the loop runs while the current position
      is not the last one, so once it has stepped past the end (the erased
      duplicate was the last entry and the current one became the last),
      it reads through end(): None stands for that undefined behaviour. An
      empty table has no last entry either. */
  function DedupAsWritten(t: Table, i: nat): Option<Table>
    requires i <= |t|
    decreases |t| - i
  {
    if i == |t| then None
    else if i == |t| - 1 then Some(t)
    else match FindDup(t, i, i + 1)
      case None => DedupAsWritten(t, i + 1)
      case Some(j) =>
        var rendered := t[i].1.alreadyRendered || t[j].1.alreadyRendered;
        if t[i].1.stamp.createdAt < t[j].1.stamp.createdAt then
          DedupAsWritten(RemoveAt(t[j := WithFlag(t[j], rendered)], i), i)
        else
          DedupAsWritten(RemoveAt(t[i := WithFlag(t[i], rendered)], j), i + 1)
  }

  /** Wherever the pass as written is defined it computes what the
      corrected pass computes. */
  lemma {:induction false} AsWrittenAgrees(t: Table, i: nat)
    requires i <= |t|
    ensures DedupAsWritten(t, i).Some? ==> DedupAsWritten(t, i).value == Dedup(t, i)
    decreases |t| - i
  {
    if i + 1 >= |t| {
      assert DedupAsWritten(t, i).Some? ==> i == |t| - 1 && Dedup(t, i) == t;
    } else {
      var t', i' := SharedStep(t, i);
      AsWrittenAgrees(t', i');
    }
  }

  /** Both passes take the same step from position i. */
  lemma SharedStep(t: Table, i: nat) returns (t': Table, i': nat)
    requires i + 1 < |t|
    ensures i' <= |t'| && |t'| - i' < |t| - i
    ensures DedupAsWritten(t, i) == DedupAsWritten(t', i') && Dedup(t, i) == Dedup(t', i')
  {
    match FindDup(t, i, i + 1)
    case None =>
      t', i' := t, i + 1;
    case Some(j) =>
      var rendered := t[i].1.alreadyRendered || t[j].1.alreadyRendered;
      if t[i].1.stamp.createdAt < t[j].1.stamp.createdAt {
        t', i' := RemoveAt(t[j := WithFlag(t[j], rendered)], i), i;
      } else {
        t', i' := RemoveAt(t[i := WithFlag(t[i], rendered)], j), i + 1;
      }
  }

  /** A text drawable created at the given time, for the examples below. */
  function Label(createdAt: int, rendered: bool): DrawItem {
    NewItem(createdAt).(mode := Text, text := TextPayload("hi", "", None), alreadyRendered := rendered)
  }

  /** Two content-equal entries, the later-keyed one older: the older one
      is erased, the current position steps onto end() and the loop guard
      still lets it run. The corrected pass keeps the newer entry alone. */
  lemma AsWrittenRunsPastEnd()
    ensures DedupAsWritten([("a", Label(5, false)), ("b", Label(3, true))], 0) == None
    ensures Dedup([("a", Label(5, false)), ("b", Label(3, true))], 0) == [("a", Label(5, true))]
  {
    var t := [("a", Label(5, false)), ("b", Label(3, true))];
    assert FindDup(t, 0, 1) == Some(1);
    var t' := RemoveAt(t[0 := WithFlag(t[0], true)], 1);
    assert t' == [("a", Label(5, true))];
  }

  /** A text item named id with text "x", created at createdAt. */
  function LabelX(id: string, createdAt: int): DrawItem {
    NewItem(createdAt).(id := id, mode := Text, text := NewItem(createdAt).text.(text := "x"))
  }

  /** The batch [{"id":"a","text":"x"},{"id":"b","text":"x"}]: each object
      is created when it is parsed, so when the clock has moved on between
      the two, removeRenamedDuplicates keeps the later object, b, alone. */
  lemma LaterObjectOfBatchSurvives(clock: Clock)
    requires clock(0) < clock(1)
    ensures var doc := JArr([JObj([("id", JStr("a")), ("text", JStr("x"))]),
                             JObj([("id", JStr("b")), ("text", JStr("x"))])]);
            var r := DecodeSource(Document(doc), clock, 0).0;
            && r == Parsed([("a", LabelX("a", clock(0))), ("b", LabelX("b", clock(1)))])
            && Dedup(r.items, 0) == [("b", LabelX("b", clock(1)))]
  {
    TwoObjectBatch(clock);
    var x, y := LabelX("a", clock(0)), LabelX("b", clock(1));
    EqualityIgnoresBookkeeping(x, "b", y.stamp, "", false, x.shape.vectorFontSize, x.svg);
    assert x.(id := "b", stamp := y.stamp, command := "", alreadyRendered := false,
              shape := x.shape.(vectorFontSize := x.shape.vectorFontSize), svg := x.svg) == y;
    NewerDuplicateSurvives("a", x, "b", y);
    assert y.(alreadyRendered := false) == y;
  }

  lemma TwoObjectBatch(clock: Clock)
    ensures var doc := JArr([JObj([("id", JStr("a")), ("text", JStr("x"))]),
                             JObj([("id", JStr("b")), ("text", JStr("x"))])]);
            DecodeSource(Document(doc), clock, 0).0
            == Parsed([("a", LabelX("a", clock(0))), ("b", LabelX("b", clock(1)))])
  {
    var oa, ob := JObj([("id", JStr("a")), ("text", JStr("x"))]), JObj([("id", JStr("b")), ("text", JStr("x"))]);
    var stamps := Readings(clock, 2);
    NamedTextObject("a", "x", clock(0), 0);
    assert Put([], "a", LabelX("a", clock(0))) == [("a", LabelX("a", clock(0)))];
    assert [oa, ob][1..] == [ob] && stamps[1..] == [clock(1)];
    SecondObject(ob, clock(1), LabelX("a", clock(0)));
  }

  /** The second object of the batch above lands after "a". */
  lemma SecondObject(ob: Json, createdAt: int, a: DrawItem)
    requires ob == JObj([("id", JStr("b")), ("text", JStr("x"))])
    ensures DecodeAll([ob], [createdAt], 0, [("a", a)]) == (Parsed([("a", a), ("b", LabelX("b", createdAt))]), 0)
  {
    var b := LabelX("b", createdAt);
    NamedTextObject("b", "x", createdAt, 0);
    assert Put([], "b", b) == [("b", b)];
    assert StrLess("a", "b") && !StrLess("b", "a");
    assert Put([("a", a)], "b", b) == [("a", a), ("b", b)];
    assert [ob][1..] == [] && [createdAt][1..] == [];
  }

  /** Two renamed duplicates side by side: the strictly newer one survives
      under its own id, whichever id sorts first; when neither is newer the
      first-keyed one is kept. The survivor takes the OR of both flags. */
  lemma NewerDuplicateSurvives(a: string, x: DrawItem, b: string, y: DrawItem)
    requires IsEqualStoredData(x, y)
    ensures var rendered := x.alreadyRendered || y.alreadyRendered;
            x.stamp.createdAt < y.stamp.createdAt ==>
              Dedup([(a, x), (b, y)], 0) == [(b, y.(alreadyRendered := rendered))]
    ensures var rendered := x.alreadyRendered || y.alreadyRendered;
            x.stamp.createdAt >= y.stamp.createdAt ==>
              Dedup([(a, x), (b, y)], 0) == [(a, x.(alreadyRendered := rendered))]
  {
    var t := [(a, x), (b, y)];
    EqualityIsEquivalence(x, y, y);
    assert FindDup(t, 0, 1) == Some(1);
    var rendered := x.alreadyRendered || y.alreadyRendered;
    if x.stamp.createdAt < y.stamp.createdAt {
      assert RemoveAt(t[1 := WithFlag(t[1], rendered)], 0) == [(b, y.(alreadyRendered := rendered))];
    } else {
      assert RemoveAt(t[0 := WithFlag(t[0], rendered)], 1) == [(a, x.(alreadyRendered := rendered))];
    }
  }

  /** One pass does not make the table duplicate-free: with three equal
      entries, newest first, the first erases the second and the pass then
      stops at the third. */
  lemma SinglePassLeavesDuplicates()
    ensures Dedup([("a", Label(5, false)), ("b", Label(3, false)), ("c", Label(1, false))], 0)
            == [("a", Label(5, false)), ("c", Label(1, false))]
  {
    var t := [("a", Label(5, false)), ("b", Label(3, false)), ("c", Label(1, false))];
    assert FindDup(t, 0, 1) == Some(1);
    var t' := RemoveAt(t[0 := WithFlag(t[0], false)], 1);
    assert t' == [("a", Label(5, false)), ("c", Label(1, false))];
  }

  // What the pass keeps: stated on the map the table stands for.

  /** Equal in every field except the anti-flicker flag. */
  predicate SameButFlag(a: DrawItem, b: DrawItem) {
    a.(alreadyRendered := b.alreadyRendered) == b
  }

  /** The entry under s in m stands in for the erased entry e of m0: equal
      content, newer (or as new and keyed earlier), and flagged when e was. */
  predicate StandsIn(m0: map<string, DrawItem>, m: map<string, DrawItem>, e: string, s: string) {
    && e in m0 && s in m
    && IsEqualStoredData(m0[e], m[s])
    && (m0[e].stamp.createdAt < m[s].stamp.createdAt
        || (m0[e].stamp.createdAt == m[s].stamp.createdAt && StrLess(s, e)))
    && (m0[e].alreadyRendered ==> m[s].alreadyRendered)
  }

  /** Why the entry under k of m is flagged: the entry origin[k] of m0 was,
      and it is k itself or an entry erased in favour of k. */
  predicate FlagSource(m0: map<string, DrawItem>, survivor: map<string, string>,
                       origin: map<string, string>, k: string) {
    && k in origin && origin[k] in m0 && m0[origin[k]].alreadyRendered
    && (origin[k] == k || (origin[k] in survivor && survivor[origin[k]] == k))
  }

  /** The pass's invariant between the original map m0 and the current map
      m: m only lost entries and raised flags, every lost entry has a stand-in
      (survivor), and every flag has a source (origin). */
  predicate DedupInv(m0: map<string, DrawItem>, m: map<string, DrawItem>,
                     survivor: map<string, string>, origin: map<string, string>) {
    && m.Keys <= m0.Keys
    && (forall k :: k in m ==> k in m0 && SameButFlag(m[k], m0[k]))
    && (forall k :: k in m && m0[k].alreadyRendered ==> m[k].alreadyRendered)
    && survivor.Keys == m0.Keys - m.Keys
    && (forall e :: e in survivor ==> StandsIn(m0, m, e, survivor[e]))
    && (forall k :: k in m && m[k].alreadyRendered ==> FlagSource(m0, survivor, origin, k))
  }

  function Redirect(survivor: map<string, string>, loser: string, winner: string): map<string, string> {
    (map e | e in survivor :: if survivor[e] == loser then winner else survivor[e])[loser := winner]
  }

  /** The entries after loser is erased in favour of winner, which takes
      both flags. */
  function Collapse(m: map<string, DrawItem>, loser: string, winner: string): map<string, DrawItem>
    requires loser in m && winner in m
  {
    m[winner := m[winner].(alreadyRendered := m[loser].alreadyRendered || m[winner].alreadyRendered)] - {loser}
  }

  /** The preconditions of a collapse: two distinct entries of equal
      content, the loser older, or as old and keyed later. */
  predicate CanCollapse(m: map<string, DrawItem>, loser: string, winner: string) {
    && loser in m && winner in m && loser != winner
    && IsEqualStoredData(m[loser], m[winner])
    && (m[loser].stamp.createdAt < m[winner].stamp.createdAt
        || (m[loser].stamp.createdAt == m[winner].stamp.createdAt && StrLess(winner, loser)))
  }

  lemma CollapseKeepsEntries(m0: map<string, DrawItem>, m: map<string, DrawItem>,
                             survivor: map<string, string>, origin: map<string, string>,
                             loser: string, winner: string)
    requires DedupInv(m0, m, survivor, origin) && CanCollapse(m, loser, winner)
    ensures var m' := Collapse(m, loser, winner);
            && m'.Keys == m.Keys - {loser}
            && (forall k :: k in m' ==> k in m0 && SameButFlag(m'[k], m0[k]))
            && (forall k :: k in m' && m0[k].alreadyRendered ==> m'[k].alreadyRendered)
  {
    var m' := Collapse(m, loser, winner);
    forall k | k in m' ensures k in m0 && SameButFlag(m'[k], m0[k]) && (m0[k].alreadyRendered ==> m'[k].alreadyRendered) {
      if k != winner { assert m'[k] == m[k]; }
    }
  }

  lemma CollapseKeepsStandIns(m0: map<string, DrawItem>, m: map<string, DrawItem>,
                              survivor: map<string, string>, origin: map<string, string>,
                              loser: string, winner: string)
    requires DedupInv(m0, m, survivor, origin) && CanCollapse(m, loser, winner)
    ensures var s' := Redirect(survivor, loser, winner);
            forall e :: e in s' ==> StandsIn(m0, Collapse(m, loser, winner), e, s'[e])
  {
    var m' := Collapse(m, loser, winner);
    var s' := Redirect(survivor, loser, winner);
    forall e | e in s'
      ensures StandsIn(m0, m', e, s'[e])
    {
      if e == loser {
        LoserStandIn(m0, m, survivor, origin, loser, winner);
      } else if survivor[e] == loser {
        RedirectedStandIn(m0, m, survivor, origin, loser, winner, e);
      } else {
        StandsInRaised(m0, m, m', e, survivor[e]);
      }
    }
  }

  /** The erased loser is stood in for by the winner. */
  lemma LoserStandIn(m0: map<string, DrawItem>, m: map<string, DrawItem>,
                     survivor: map<string, string>, origin: map<string, string>,
                     loser: string, winner: string)
    requires DedupInv(m0, m, survivor, origin) && CanCollapse(m, loser, winner)
    ensures StandsIn(m0, Collapse(m, loser, winner), loser, winner)
  {
    var m' := Collapse(m, loser, winner);
    var w := m'[winner];
    assert SameButFlag(m[loser], m0[loser]);
    EqualityIsEquivalence(m0[loser], m[loser], w);
  }

  /** An entry that the loser stood in for is now stood in for by the winner. */
  lemma RedirectedStandIn(m0: map<string, DrawItem>, m: map<string, DrawItem>,
                          survivor: map<string, string>, origin: map<string, string>,
                          loser: string, winner: string, e: string)
    requires DedupInv(m0, m, survivor, origin) && CanCollapse(m, loser, winner)
    requires e in survivor && survivor[e] == loser
    ensures StandsIn(m0, Collapse(m, loser, winner), e, winner)
  {
    var m' := Collapse(m, loser, winner);
    var w := m'[winner];
    assert StandsIn(m0, m, e, loser);
    EqualityIsEquivalence(m0[e], m[loser], w);
    if m0[e].stamp.createdAt == m[loser].stamp.createdAt && m[loser].stamp.createdAt == w.stamp.createdAt {
      StrLessTransitive(winner, loser, e);
    }
  }

  /** Raising the stand-in's flag keeps it a stand-in. */
  lemma StandsInRaised(m0: map<string, DrawItem>, m: map<string, DrawItem>, m': map<string, DrawItem>,
                       e: string, s: string)
    requires StandsIn(m0, m, e, s) && s in m' && SameButFlag(m'[s], m[s])
    requires m[s].alreadyRendered ==> m'[s].alreadyRendered
    ensures StandsIn(m0, m', e, s)
  {
    assert m'[s].stamp == m[s].stamp;
  }

  function Reorigin(m: map<string, DrawItem>, origin: map<string, string>, loser: string, winner: string): map<string, string>
    requires loser in m && winner in m
  {
    if !m[winner].alreadyRendered && m[loser].alreadyRendered && loser in origin
    then origin[winner := origin[loser]] - {loser}
    else origin - {loser}
  }

  lemma CollapseKeepsSources(m0: map<string, DrawItem>, m: map<string, DrawItem>,
                             survivor: map<string, string>, origin: map<string, string>,
                             loser: string, winner: string)
    requires DedupInv(m0, m, survivor, origin) && CanCollapse(m, loser, winner)
    ensures var m' := Collapse(m, loser, winner);
            forall k :: k in m' && m'[k].alreadyRendered ==>
              FlagSource(m0, Redirect(survivor, loser, winner), Reorigin(m, origin, loser, winner), k)
  {
    var m' := Collapse(m, loser, winner);
    var s', o' := Redirect(survivor, loser, winner), Reorigin(m, origin, loser, winner);
    forall k | k in m' && m'[k].alreadyRendered
      ensures FlagSource(m0, s', o', k)
    {
      if k == winner && !m[winner].alreadyRendered {
        WinnerTakesLoserSource(m0, m, survivor, origin, loser, winner);
      } else {
        assert m'[k].alreadyRendered == m[k].alreadyRendered;
        FlagSourceKept(m0, m, survivor, origin, loser, winner, k);
      }
    }
  }

  /** A winner flagged only through the loser takes over the loser's source. */
  lemma WinnerTakesLoserSource(m0: map<string, DrawItem>, m: map<string, DrawItem>,
                               survivor: map<string, string>, origin: map<string, string>,
                               loser: string, winner: string)
    requires DedupInv(m0, m, survivor, origin) && CanCollapse(m, loser, winner)
    requires !m[winner].alreadyRendered && m[loser].alreadyRendered
    ensures FlagSource(m0, Redirect(survivor, loser, winner), Reorigin(m, origin, loser, winner), winner)
  {
    assert FlagSource(m0, survivor, origin, loser);
    var o := origin[loser];
    assert Reorigin(m, origin, loser, winner)[winner] == o;
    assert Redirect(survivor, loser, winner)[o] == winner;
  }

  /** An entry flagged before the collapse keeps its source. */
  lemma FlagSourceKept(m0: map<string, DrawItem>, m: map<string, DrawItem>,
                       survivor: map<string, string>, origin: map<string, string>,
                       loser: string, winner: string, k: string)
    requires DedupInv(m0, m, survivor, origin) && CanCollapse(m, loser, winner)
    requires k in m && k != loser && m[k].alreadyRendered
    ensures FlagSource(m0, Redirect(survivor, loser, winner), Reorigin(m, origin, loser, winner), k)
  {
    assert FlagSource(m0, survivor, origin, k);
    var o := origin[k];
    var o' := Reorigin(m, origin, loser, winner);
    assert k in o' && o'[k] == o;
    if o != k {
      assert loser !in survivor;
      assert Redirect(survivor, loser, winner)[o] == k;
    }
  }

  /** Erasing loser in favour of a content-equal, newer winner that takes
      both flags keeps the invariant. */
  lemma CollapseKeepsInv(m0: map<string, DrawItem>, m: map<string, DrawItem>,
                         survivor: map<string, string>, origin: map<string, string>,
                         loser: string, winner: string)
    requires DedupInv(m0, m, survivor, origin) && CanCollapse(m, loser, winner)
    ensures DedupInv(m0, Collapse(m, loser, winner), Redirect(survivor, loser, winner),
                     Reorigin(m, origin, loser, winner))
  {
    CollapseKeepsEntries(m0, m, survivor, origin, loser, winner);
    CollapseKeepsStandIns(m0, m, survivor, origin, loser, winner);
    CollapseKeepsSources(m0, m, survivor, origin, loser, winner);
    assert Redirect(survivor, loser, winner).Keys == survivor.Keys + {loser};
  }

  /** One collapse step of the pass, on the table: the entry at position
      loser is erased and the one at winner takes both flags. */
  lemma CollapseStep(t: Table, loser: nat, winner: nat)
    requires Sorted(t) && loser < |t| && winner < |t| && loser != winner
    ensures var rendered := t[loser].1.alreadyRendered || t[winner].1.alreadyRendered;
            var t' := RemoveAt(t[winner := WithFlag(t[winner], rendered)], loser);
            Sorted(t') && View(t') == Collapse(View(t), t[loser].0, t[winner].0)
  {
    var rendered := t[loser].1.alreadyRendered || t[winner].1.alreadyRendered;
    var t1 := t[winner := WithFlag(t[winner], rendered)];
    ViewAt(t, loser);
    ViewAt(t, winner);
    ViewSetAt(t, winner, WithFlag(t[winner], rendered).1);
    ViewRemoveAt(t1, loser);
  }

  /** The pass keeps the invariant from any position on. */
  lemma {:induction false} DedupKeepsInv(m0: map<string, DrawItem>, t: Table, i: nat,
                                         survivor: map<string, string>, origin: map<string, string>)
    returns (survivor': map<string, string>, origin': map<string, string>)
    requires Sorted(t) && DedupInv(m0, View(t), survivor, origin)
    ensures Sorted(Dedup(t, i)) && DedupInv(m0, View(Dedup(t, i)), survivor', origin')
    decreases |t| - i
  {
    if i + 1 >= |t| {
      return survivor, origin;
    }
    match FindDup(t, i, i + 1)
    case None =>
      survivor', origin' := DedupKeepsInv(m0, t, i + 1, survivor, origin);
    case Some(j) =>
      var t', i', s1, o1 := DedupStepKeepsInv(m0, t, i, j, survivor, origin);
      survivor', origin' := DedupKeepsInv(m0, t', i', s1, o1);
  }

  /** One collapse of the pass at position i, whose duplicate is at j,
      keeps the invariant and leaves the rest of the pass to run from
      (t', i'). */
  lemma DedupStepKeepsInv(m0: map<string, DrawItem>, t: Table, i: nat, j: nat,
                          survivor: map<string, string>, origin: map<string, string>)
    returns (t': Table, i': nat, survivor': map<string, string>, origin': map<string, string>)
    requires Sorted(t) && DedupInv(m0, View(t), survivor, origin)
    requires i + 1 < |t| && FindDup(t, i, i + 1) == Some(j)
    ensures Sorted(t') && DedupInv(m0, View(t'), survivor', origin')
    ensures Dedup(t, i) == Dedup(t', i') && |t'| - i' < |t| - i
  {
    var rendered := t[i].1.alreadyRendered || t[j].1.alreadyRendered;
    DuplicateCanCollapse(t, i, j);
    if t[i].1.stamp.createdAt < t[j].1.stamp.createdAt {
      survivor', origin' := CollapseAtKeepsInv(m0, t, i, j, survivor, origin);
      t', i' := RemoveAt(t[j := WithFlag(t[j], rendered)], i), i;
    } else {
      survivor', origin' := CollapseAtKeepsInv(m0, t, j, i, survivor, origin);
      t', i' := RemoveAt(t[i := WithFlag(t[i], rendered)], j), i + 1;
    }
  }

  /** The duplicate the pass finds for position i may be collapsed with
      it: the older of the two loses, and on a tie the later-keyed one. */
  lemma DuplicateCanCollapse(t: Table, i: nat, j: nat)
    requires Sorted(t) && i < j < |t| && IsEqualStoredData(t[j].1, t[i].1)
    ensures t[i].1.stamp.createdAt < t[j].1.stamp.createdAt ==> CanCollapse(View(t), t[i].0, t[j].0)
    ensures t[i].1.stamp.createdAt >= t[j].1.stamp.createdAt ==> CanCollapse(View(t), t[j].0, t[i].0)
  {
    ViewAt(t, i);
    ViewAt(t, j);
    assert StrLess(t[i].0, t[j].0);
    StrLessIrreflexive(t[i].0);
    EqualityIsEquivalence(t[j].1, t[i].1, t[j].1);
  }

  /** A collapse step on the table keeps the invariant. */
  lemma CollapseAtKeepsInv(m0: map<string, DrawItem>, t: Table, loser: nat, winner: nat,
                           survivor: map<string, string>, origin: map<string, string>)
    returns (survivor': map<string, string>, origin': map<string, string>)
    requires Sorted(t) && loser < |t| && winner < |t| && loser != winner
    requires DedupInv(m0, View(t), survivor, origin) && CanCollapse(View(t), t[loser].0, t[winner].0)
    ensures var rendered := t[loser].1.alreadyRendered || t[winner].1.alreadyRendered;
            var t' := RemoveAt(t[winner := WithFlag(t[winner], rendered)], loser);
            Sorted(t') && DedupInv(m0, View(t'), survivor', origin')
  {
    var m := View(t);
    CollapseStep(t, loser, winner);
    CollapseKeepsInv(m0, m, survivor, origin, t[loser].0, t[winner].0);
    survivor' := Redirect(survivor, t[loser].0, t[winner].0);
    origin' := Reorigin(m, origin, t[loser].0, t[winner].0);
  }

  /** removeRenamedDuplicates only erases entries and raises flags. Each
      erased entry e has a survivor of equal content that is newer than e
      (or as new and keyed earlier) and flagged if e was; a survivor is
      flagged exactly when it was flagged before or some entry erased in
      its favour was. The survivors are returned as a map from erased ids. */
  lemma DedupCollapsesDuplicates(t: Table) returns (survivor: map<string, string>)
    requires Sorted(t)
    ensures Sorted(Dedup(t, 0))
    ensures var m, r := View(t), View(Dedup(t, 0));
            && r.Keys <= m.Keys
            && (forall k :: k in r ==> SameButFlag(r[k], m[k]))
            && survivor.Keys == m.Keys - r.Keys
            && (forall e :: e in survivor ==> StandsIn(m, r, e, survivor[e]))
            && (forall k :: k in r ==>
                  (r[k].alreadyRendered <==>
                     m[k].alreadyRendered
                     || exists e :: e in survivor && survivor[e] == k && m[e].alreadyRendered))
  {
    var m := View(t);
    var origin0 := map k | k in m && m[k].alreadyRendered :: k;
    assert DedupInv(m, m, map[], origin0);
    var origin;
    survivor, origin := DedupKeepsInv(m, t, 0, map[], origin0);
    var r := View(Dedup(t, 0));
    forall k | k in r && r[k].alreadyRendered && !m[k].alreadyRendered
      ensures exists e :: e in survivor && survivor[e] == k && m[e].alreadyRendered
    {
      assert FlagSource(m, survivor, origin, k);
      assert origin[k] != k;
    }
    forall k, e | k in r && e in survivor && survivor[e] == k && m[e].alreadyRendered
      ensures r[k].alreadyRendered
    {
      assert StandsIn(m, r, e, k);
    }
  }

  /** find_if(std::next(iter), src.end(), ...): the position of the first
      later entry whose content equals entry i, or |src| for end(). */
  method FindDuplicate(src: Table, i: nat) returns (dup: nat)
    requires i < |src|
    ensures i < dup <= |src|
    ensures FindDup(src, i, i + 1) == if dup < |src| then Some(dup) else None
  {
    dup := i + 1;
    while dup < |src| && !IsEqualStoredData(src[dup].1, src[i].1)
      invariant i < dup <= |src|
      invariant FindDup(src, i, i + 1) == FindDup(src, i, dup)
      decreases |src| - dup
    {
      dup := dup + 1;
    }
  }

  /** removeRenamedDuplicates, with the loop guard corrected (see
      DedupAsWritten for the guard as written). */
  method RemoveRenamedDuplicates(src: Table) returns (r: Table)
    ensures r == Dedup(src, 0)
  {
    r := src;
    var i := 0;
    while i + 1 < |r|
      invariant Dedup(r, i) == Dedup(src, 0)
      decreases |r| - i
    {
      var dup := FindDuplicate(r, i);
      if dup == |r| {
        i := i + 1;
      } else {
        var rendered := r[i].1.alreadyRendered || r[dup].1.alreadyRendered;
        if r[i].1.stamp.createdAt < r[dup].1.stamp.createdAt {
          r := RemoveAt(r[dup := WithFlag(r[dup], rendered)], i);
        } else {
          r := RemoveAt(r[i := WithFlag(r[i], rendered)], dup);
          i := i + 1;
        }
      }
    }
  }

  // ---------------------------------------------------------------------
  // The anti-flicker pass

  /** One iteration for an entry old that the merge left behind: the batch
      entry under the same id is marked already rendered when its content
      equals old's. */
  function MarkIfUnchanged(t: Table, prior: (string, DrawItem)): Table
    requires Sorted(t)
  {
    match Get(t, prior.0)
    case None => t
    case Some(e) => if IsEqualStoredData(e, prior.1) then Put(t, prior.0, SetAlreadyRendered(e)) else t
  }

  /** The iterations for the entries olds, in order. */
  function MarkUnchanged(t: Table, olds: Table): (r: Table)
    requires Sorted(t)
    ensures Sorted(r)
    decreases |olds|
  {
    if olds == [] then t
    else
      var r := MarkUnchanged(t, olds[..|olds| - 1]);
      MarkIfUnchanged(r, olds[|olds| - 1])
  }

  /** Entries of m whose id olds holds with equal content, marked already
      rendered; every other entry as it is. */
  function MarkedView(m: map<string, DrawItem>, olds: map<string, DrawItem>): map<string, DrawItem> {
    map k | k in m :: if k in olds && IsEqualStoredData(m[k], olds[k]) then SetAlreadyRendered(m[k]) else m[k]
  }

  /** The pass sets the flag of exactly the entries whose id it visits with
      equal content, and changes nothing else. */
  lemma {:induction false} MarkUnchangedView(t: Table, olds: Table)
    requires Sorted(t) && Sorted(olds)
    ensures View(MarkUnchanged(t, olds)) == MarkedView(View(t), View(olds))
    decreases |olds|
  {
    if olds != [] {
      var init, last := olds[..|olds| - 1], olds[|olds| - 1];
      ViewSnoc(olds);
      MarkUnchangedView(t, init);
      MarkIfUnchangedView(MarkUnchanged(t, init), last, View(t), View(init));
    }
  }

  /** One more iteration, for an id the earlier ones did not visit. */
  lemma MarkIfUnchangedView(r: Table, prior: (string, DrawItem), m: map<string, DrawItem>, olds: map<string, DrawItem>)
    requires Sorted(r) && View(r) == MarkedView(m, olds) && prior.0 !in olds
    ensures View(MarkIfUnchanged(r, prior)) == MarkedView(m, olds[prior.0 := prior.1])
  {
    ViewGet(r, prior.0);
    MarkedViewExtend(m, olds, prior.0, prior.1);
    match Get(r, prior.0)
    case None =>
    case Some(e) =>
      if IsEqualStoredData(e, prior.1) {
        ViewPut(r, prior.0, SetAlreadyRendered(e));
      }
  }

  /** Visiting one more id k changes the marked map at k alone. */
  lemma MarkedViewExtend(m: map<string, DrawItem>, olds: map<string, DrawItem>, k: string, v: DrawItem)
    requires k !in olds
    ensures k !in m ==> MarkedView(m, olds[k := v]) == MarkedView(m, olds)
    ensures k in m ==> MarkedView(m, olds)[k] == m[k]
    ensures k in m ==>
              MarkedView(m, olds[k := v]) ==
              MarkedView(m, olds)[k := if IsEqualStoredData(m[k], v) then SetAlreadyRendered(m[k]) else m[k]]
  {
    var a, b := MarkedView(m, olds[k := v]), MarkedView(m, olds);
    if k in m {
      var c := b[k := if IsEqualStoredData(m[k], v) then SetAlreadyRendered(m[k]) else m[k]];
      assert a.Keys == c.Keys;
      forall j | j in a ensures a[j] == c[j] {
        if j != k { assert a[j] == b[j]; }
      }
    } else {
      assert a.Keys == b.Keys;
      forall j | j in a ensures a[j] == b[j] {
        assert j != k;
      }
    }
  }

  /** canContinue(): another thread may set the stop flag at any time;
      stopAt is how many checks within this payload pass before it is seen
      set, None when it never is. */
  predicate CanContinue(stopAt: Option<nat>, check: nat) {
    stopAt.None? || check < stopAt.value
  }

  /** How many of the leftover entries the anti-flicker loop handles: its
      i-th iteration makes check i + 1 (check 0 follows the conversion). */
  function Handled(leftover: Table, stopAt: Option<nat>): (n: nat)
    ensures n <= |leftover|
  {
    if stopAt.None? then |leftover|
    else if stopAt.value == 0 then 0
    else Min(|leftover|, stopAt.value - 1)
  }

  /** The anti-flicker loop over the entries the merge left in allDraws,
      breaking as soon as the stop flag is seen. */
  method MarkUnchangedEntries(incoming: Table, leftover: Table, stopAt: Option<nat>) returns (t: Table)
    requires Sorted(incoming)
    ensures t == MarkUnchanged(incoming, leftover[..Handled(leftover, stopAt)])
  {
    t := incoming;
    var i := 0;
    while i < |leftover|
      invariant i <= Handled(leftover, stopAt)
      invariant t == MarkUnchanged(incoming, leftover[..i])
    {
      if !CanContinue(stopAt, i + 1) {
        break;
      }
      assert leftover[..i + 1][..i] == leftover[..i];
      var prior := leftover[i];
      match Get(t, prior.0) {
        case Some(e) =>
          if IsEqualStoredData(e, prior.1) {
            t := Put(t, prior.0, SetAlreadyRendered(e));
          }
        case None =>
      }
      i := i + 1;
    }
    if i == |leftover| {
      assert leftover[..i] == leftover;
    }
  }

  // ---------------------------------------------------------------------
  // SVG conversion of a batch

  /** What process_payload takes from its LogicContext: the window width the
      svg builder needs, and the shape payload's final font size (its
      accessor is not part of this model). */
  datatype Context = Context(windowWidth: int, finalFontSize: ShapePayload -> int)

  function Convert(e: (string, DrawItem), ctx: Context): BuildOutcome {
    BuildSpec(e.1, ctx.windowWidth, ctx.finalFontSize(e.1.shape))
  }

  /** Every entry of the batch replaced by its SVG task under the same id;
      None when the builder throws for one of them. */
  function ConvertAll(batch: Table, ctx: Context): (r: Option<Table>)
    ensures r.Some? <==> forall p :: 0 <= p < |batch| ==> Convert(batch[p], ctx).Built?
    ensures r.Some? ==> |r.value| == |batch|
    ensures r.Some? ==> forall p :: 0 <= p < |batch| ==>
                          r.value[p] == (batch[p].0, Convert(batch[p], ctx).item)
    decreases |batch|
  {
    if batch == [] then Some([])
    else
      var init := ConvertAll(batch[..|batch| - 1], ctx);
      var last := Convert(batch[|batch| - 1], ctx);
      if init.Some? && last.Built? then Some(init.value + [(batch[|batch| - 1].0, last.item)])
      else None
  }

  /** Conversion keeps the ids, hence the key order, and puts each
      entry's SVG task under its id. */
  lemma ConversionKeepsTable(batch: Table, ctx: Context)
    requires Sorted(batch) && ConvertAll(batch, ctx).Some?
    ensures Sorted(ConvertAll(batch, ctx).value)
    ensures View(ConvertAll(batch, ctx).value).Keys == View(batch).Keys
    ensures forall k :: k in View(batch) ==>
              Convert((k, View(batch)[k]), ctx) == Built(View(ConvertAll(batch, ctx).value)[k])
  {
    var r := ConvertAll(batch, ctx).value;
    SameKeysAt(batch, r);
    forall k | k in View(batch) ensures Convert((k, View(batch)[k]), ctx) == Built(View(r)[k]) {
      var p :| 0 <= p < |batch| && batch[p].0 == k;
      ViewAt(batch, p);
      ViewAt(r, p);
    }
  }

  /** Two tables with the same ids position by position. */
  lemma SameKeysAt<V, W>(a: Entries<V>, b: Entries<W>)
    requires Sorted(a) && |a| == |b| && forall p :: 0 <= p < |a| ==> a[p].0 == b[p].0
    ensures Sorted(b) && KeySet(b) == KeySet(a)
  {
    forall k | k in KeySet(b) ensures k in KeySet(a) {
      var p :| 0 <= p < |b| && b[p].0 == k;
      assert a[p].0 == k;
    }
  }

  /** The conversion loop of process_payload: each entry's task is replaced
      by the builder's result; an exception leaves the loop. */
  method ConvertBatch(batch: Table, ctx: Context) returns (r: Option<Table>)
    ensures r == ConvertAll(batch, ctx)
  {
    var out: Table := [];
    var i := 0;
    while i < |batch|
      invariant i <= |batch|
      invariant ConvertAll(batch[..i], ctx) == Some(out)
    {
      assert batch[..i + 1][..i] == batch[..i];
      var task := BuildSvgTask(batch[i].1, ctx.windowWidth, ctx.finalFontSize(batch[i].1.shape));
      if task.PointThrew? {
        NoConversionAfterThrow(batch, ctx, i);
        return None;
      }
      out := out + [(batch[i].0, task.item)];
      i := i + 1;
    }
    assert batch[..i] == batch;
    r := Some(out);
  }

  lemma NoConversionAfterThrow(batch: Table, ctx: Context, i: nat)
    requires i < |batch| && Convert(batch[i], ctx).PointThrew?
    ensures ConvertAll(batch, ctx).None?
  {
  }

  // ---------------------------------------------------------------------
  // process_payload

  /** How one payload ended: parse failure or empty batch, an exception from
      the builder (it leaves the session), the stop flag seen right after
      conversion, or the table replaced. */
  datatype PayloadOutcome = Ignored | ConversionThrew | Stopped | Committed

  /** The entries that the merge leaves in allDraws: the old entries whose
      ids the batch also holds. */
  function Leftover(prev: Table, conv: Table): Table {
    MergeLeftover(conv, prev)
  }

  /** The ids whose collision the anti-flicker loop examined. */
  function Visited(prev: Table, conv: Table, stopAt: Option<nat>): set<string> {
    var l := Leftover(prev, conv);
    KeySet(l[..Handled(l, stopAt)])
  }

  /** The merged table after the anti-flicker loop, before dedup. */
  function Marked(prev: Table, conv: Table, stopAt: Option<nat>): (r: Table)
    requires Sorted(conv)
    ensures Sorted(r)
  {
    var l := Leftover(prev, conv);
    MarkUnchanged(MergeInto(conv, prev), l[..Handled(l, stopAt)])
  }

  /** The table swapped into allDraws. */
  function Commit(prev: Table, conv: Table, stopAt: Option<nat>): Table
    requires Sorted(conv)
  {
    Dedup(Marked(prev, conv, stopAt), 0)
  }

  /** process_payload on an already parsed batch: the new table and how
      the payload ended. */
  function PayloadSpec(prev: Table, batch: Batch, ctx: Context, stopAt: Option<nat>): (Table, PayloadOutcome)
    requires batch.Parsed? ==> Sorted(batch.items)
  {
    if batch.ParseFailed? || batch.items == [] then (prev, Ignored)
    else match ConvertAll(batch.items, ctx)
      case None => (prev, ConversionThrew)
      case Some(conv) =>
        ConversionKeepsTable(batch.items, ctx);
        if !CanContinue(stopAt, 0) then (prev, Stopped)
        else (Commit(prev, conv, stopAt), Committed)
  }

  /** The shared table of drawables (allDraws) and the static id counter of
      the decoder. */
  class Store {
    var allDraws: Table
    var idCounter: nat

    predicate Valid()
      reads this
    {
      Sorted(allDraws)
    }

    constructor()
      ensures Valid() && allDraws == [] && idCounter == 0
    {
      allDraws := [];
      idCounter := 0;
    }

    /** process_payload: parse, convert, then under the lock merge the old
        table into the batch, mark unchanged collisions, dedup and swap. */
    method ProcessPayload(src: Source, clock: Clock, ctx: Context, stopAt: Option<nat>) returns (outcome: PayloadOutcome)
      requires Valid()
      modifies this
      ensures Valid()
      ensures idCounter == DecodeSource(src, clock, old(idCounter)).1
      ensures (allDraws, outcome) == PayloadSpec(old(allDraws), DecodeSource(src, clock, old(idCounter)).0, ctx, stopAt)
    {
      ghost var prev := allDraws;
      var batch, counter := ParseJsonString(src, clock, idCounter);
      idCounter := counter;
      if batch.ParseFailed? || batch.items == [] {
        return Ignored;
      }
      var conv := ConvertBatch(batch.items, ctx);
      if conv.None? {
        return ConversionThrew;
      }
      ConversionKeepsTable(batch.items, ctx);
      if !CanContinue(stopAt, 0) {
        return Stopped;
      }
      var incoming := MergeInto(conv.value, allDraws);
      var leftover := MergeLeftover(conv.value, allDraws);
      incoming := MarkUnchangedEntries(incoming, leftover, stopAt);
      assert incoming == Marked(prev, conv.value, stopAt);
      incoming := RemoveRenamedDuplicates(incoming);
      assert incoming == Commit(prev, conv.value, stopAt);
      allDraws := incoming;
      outcome := Committed;
      ghost var survivor := DedupCollapsesDuplicates(Marked(prev, conv.value, stopAt));
    }
  }

  // ---------------------------------------------------------------------
  // What one payload does to the table

  /** Only a committed payload touches the table; it commits exactly when
      the batch parsed non-empty, every entry converted and the stop flag
      was still clear after conversion. */
  lemma PayloadOutcomes(prev: Table, batch: Batch, ctx: Context, stopAt: Option<nat>)
    requires batch.Parsed? ==> Sorted(batch.items)
    ensures PayloadSpec(prev, batch, ctx, stopAt).1 != Committed ==> PayloadSpec(prev, batch, ctx, stopAt).0 == prev
    ensures PayloadSpec(prev, batch, ctx, stopAt).1 == Committed <==>
              && batch.Parsed? && batch.items != []
              && (forall p :: 0 <= p < |batch.items| ==> Convert(batch.items[p], ctx).Built?)
              && CanContinue(stopAt, 0)
    ensures batch.ParseFailed? || batch.items == [] ==> PayloadSpec(prev, batch, ctx, stopAt).1 == Ignored
    ensures stopAt == Some(0) ==> PayloadSpec(prev, batch, ctx, stopAt).1 != Committed
  {
  }

  /** The ids the anti-flicker loop visits: colliding ids only, in
      ascending order, all of them unless the stop flag is seen, none when
      it is seen at the loop's first check. */
  lemma VisitedIds(prev: Table, conv: Table, stopAt: Option<nat>)
    requires Sorted(prev)
    ensures Visited(prev, conv, stopAt) <= View(prev).Keys * View(conv).Keys
    ensures stopAt.None? ==> Visited(prev, conv, stopAt) == View(prev).Keys * View(conv).Keys
    ensures stopAt.Some? && stopAt.value <= 1 ==> Visited(prev, conv, stopAt) == {}
    ensures forall j, k :: k in Visited(prev, conv, stopAt) && j in View(prev) && j in View(conv) && StrLess(j, k)
                           ==> j in Visited(prev, conv, stopAt)
  {
    var l := Leftover(prev, conv);
    var n := Handled(l, stopAt);
    ViewMergeLeftover(conv, prev);
    ViewPrefix(l, n);
    if n == |l| {
      assert l[..n] == l;
    }
  }

  /** The table before dedup: the union of both id sets; old entries whose
      id the batch lacks carried over unchanged, flag included; each batch
      entry kept, with its flag raised exactly when its id was visited and
      its content equals the old entry's. */
  lemma MergeRule(prev: Table, conv: Table, stopAt: Option<nat>)
    requires Sorted(prev) && Sorted(conv)
    ensures Visited(prev, conv, stopAt) <= View(prev).Keys
    ensures View(Marked(prev, conv, stopAt)).Keys == View(prev).Keys + View(conv).Keys
    ensures forall k :: k in View(prev) && k !in View(conv) ==> View(Marked(prev, conv, stopAt))[k] == View(prev)[k]
    ensures forall k :: k in View(conv) ==> SameButFlag(View(Marked(prev, conv, stopAt))[k], View(conv)[k])
    ensures forall k :: k in View(conv) ==>
              (View(Marked(prev, conv, stopAt))[k].alreadyRendered <==>
                 || View(conv)[k].alreadyRendered
                 || (k in Visited(prev, conv, stopAt) && IsEqualStoredData(View(conv)[k], View(prev)[k])))
  {
    var l := Leftover(prev, conv);
    var h := View(l[..Handled(l, stopAt)]);
    MarkedIsMarkedView(prev, conv, stopAt);
    VisitedAreOld(prev, conv, stopAt);
    MarkedMerge(View(prev), View(conv), h, View(Marked(prev, conv, stopAt)), Visited(prev, conv, stopAt));
  }

  lemma MarkedIsMarkedView(prev: Table, conv: Table, stopAt: Option<nat>)
    requires Sorted(prev) && Sorted(conv)
    ensures var l := Leftover(prev, conv);
            View(Marked(prev, conv, stopAt)) == MarkedView(View(prev) + View(conv), View(l[..Handled(l, stopAt)]))
  {
    var l := Leftover(prev, conv);
    var n := Handled(l, stopAt);
    ViewMergeInto(conv, prev);
    ViewPrefix(l, n);
    MarkUnchangedView(MergeInto(conv, prev), l[..n]);
  }

  lemma VisitedAreOld(prev: Table, conv: Table, stopAt: Option<nat>)
    requires Sorted(prev)
    ensures var l := Leftover(prev, conv);
            var h := View(l[..Handled(l, stopAt)]);
            forall k :: k in h ==> k in View(prev) && k in View(conv) && h[k] == View(prev)[k]
  {
    var l := Leftover(prev, conv);
    ViewMergeLeftover(conv, prev);
    ViewPrefix(l, Handled(l, stopAt));
  }

  lemma MarkedMerge(o: map<string, DrawItem>, c: map<string, DrawItem>, h: map<string, DrawItem>,
                    m: map<string, DrawItem>, visited: set<string>)
    requires forall k :: k in h ==> k in o && k in c && h[k] == o[k]
    requires m == MarkedView(o + c, h) && visited == h.Keys
    ensures visited <= o.Keys
    ensures m.Keys == o.Keys + c.Keys
    ensures forall k :: k in o && k !in c ==> m[k] == o[k]
    ensures forall k :: k in c ==> SameButFlag(m[k], c[k])
    ensures forall k :: k in c ==>
              (m[k].alreadyRendered <==> c[k].alreadyRendered || (k in visited && IsEqualStoredData(c[k], o[k])))
  {
  }

  /** With the stop flag never seen, a batch entry colliding with an equal
      old entry is marked rendered whatever the old flag was, and every
      other batch entry keeps its incoming flag. */
  lemma AntiFlicker(prev: Table, conv: Table)
    requires Sorted(prev) && Sorted(conv)
    ensures forall k :: k in View(conv) ==>
              && k in View(Marked(prev, conv, None))
              && (View(Marked(prev, conv, None))[k].alreadyRendered <==>
                 || View(conv)[k].alreadyRendered
                 || (k in View(prev) && IsEqualStoredData(View(conv)[k], View(prev)[k])))
  {
    MergeRule(prev, conv, None);
    VisitedIds(prev, conv, None);
    AllVisited(View(Marked(prev, conv, None)), View(prev), View(conv), Visited(prev, conv, None));
  }

  /** A text rewritten in place is not redrawn: when the batch replaces a
      converted text under id k by another text in the same colour at the
      same place, the anti-flicker loop marks the new item as already
      rendered, since conversion has emptied both texts. */
  lemma RewordedTextMarkedRendered(prev: Table, batch: Table, ctx: Context, k: string, before: DrawItem)
    requires Sorted(prev) && Sorted(batch) && ConvertAll(batch, ctx).Some?
    requires k in View(prev) && k in View(batch)
    requires Convert((k, before), ctx) == Built(View(prev)[k])
    requires before.mode == Text && View(batch)[k].mode == Text
    requires before.color == View(batch)[k].color && before.x == View(batch)[k].x && before.y == View(batch)[k].y
    ensures var m := View(Marked(prev, ConvertAll(batch, ctx).value, None));
            k in m && m[k].alreadyRendered
  {
    var conv := ConvertAll(batch, ctx).value;
    ConversionKeepsTable(batch, ctx);
    var after := View(batch)[k];
    ConvertedTextsCompareEqual(after, before, ctx.windowWidth, ctx.finalFontSize(after.shape),
                               ctx.finalFontSize(before.shape));
    assert IsEqualStoredData(View(conv)[k], View(prev)[k]);
    AntiFlicker(prev, conv);
  }

  lemma AllVisited(m: map<string, DrawItem>, o: map<string, DrawItem>, c: map<string, DrawItem>, visited: set<string>)
    requires visited == o.Keys * c.Keys && m.Keys == o.Keys + c.Keys
    requires forall k :: k in c ==>
               (m[k].alreadyRendered <==> c[k].alreadyRendered || (k in visited && IsEqualStoredData(c[k], o[k])))
    ensures forall k :: k in c ==>
              (m[k].alreadyRendered <==> c[k].alreadyRendered || (k in o && IsEqualStoredData(c[k], o[k])))
  {
  }
}
