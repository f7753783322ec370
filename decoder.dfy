/** parseJsonString: the field-dispatch table that turns decoded JSON
    objects into drawables, and the batch map they are collected in. */
module Decoder {
  import opened Basics
  import opened JsonValue
  import opened OrderedMap
  import opened Drawables

  /** Keys whose processor switches the item to text mode. */
  const TextKeys: set<string> := {"text", "size", "font_size"}
  /** Keys whose processor switches the item to shape mode. */
  const ShapeKeys: set<string> := {"w", "h", "vector_font_size", "shape", "fill", "vector"}
  /** Keys whose processor leaves the mode alone. */
  const NeutralKeys: set<string> := {"x", "y", "color", "ttl", "id", "msgid", "shapeid", "command"}
  /** The three spellings of the id field. */
  const IdKeys: set<string> := {"id", "msgid", "shapeid"}

  function KnownKeys(): set<string> { TextKeys + ShapeKeys + NeutralKeys }

  const AutoIdPrefix: string := "AUTOID:"
  /** TTL in seconds given to anonymous items that asked to live forever. */
  const AnonymousTtl: int := 60

  /** Result of running the processor for one key. */
  datatype KeyOutcome = Applied(item: DrawItem) | NoProcessor | Threw

  /** Values a processor of `key` accepts without throwing. */
  predicate AcceptsValue(key: string, v: Json) {
    if key == "vector" then true
    else if key in {"x", "y", "w", "h", "font_size", "vector_font_size", "ttl"} then GetInt(v).Ok?
    else GetString(v).Ok?
  }

  function IntValue(v: Json): int
    requires GetInt(v).Ok?
  {
    GetInt(v).value
  }

  function StrValue(v: Json): string
    requires GetString(v).Ok?
  {
    GetString(v).value
  }

  /** One entry of the processors table applied to the item under construction. */
  function ApplyKey(key: string, v: Json, d: DrawItem): (r: KeyOutcome)
    ensures r.NoProcessor? <==> key !in KnownKeys()
    ensures r.Threw? <==> key in KnownKeys() && !AcceptsValue(key, v)
    ensures r.Applied? ==> r.item.stamp.createdAt == d.stamp.createdAt
    ensures r.Applied? ==> r.item.alreadyRendered == d.alreadyRendered && r.item.svg == d.svg
  {
    if key !in KnownKeys() then NoProcessor
    else if !AcceptsValue(key, v) then Threw
    else if key == "x" then Applied(d.(x := IntValue(v)))
    else if key == "y" then Applied(d.(y := IntValue(v)))
    else if key == "w" then Applied(d.(mode := Shape, shape := d.shape.(w := IntValue(v))))
    else if key == "h" then Applied(d.(mode := Shape, shape := d.shape.(h := IntValue(v))))
    else if key == "color" then Applied(d.(color := StrValue(v)))
    else if key == "text" then Applied(d.(mode := Text, text := d.text.(text := StrValue(v))))
    else if key == "size" then Applied(d.(mode := Text, text := d.text.(size := StrValue(v))))
    else if key == "font_size" then Applied(d.(mode := Text, text := d.text.(fontSize := Some(IntValue(v)))))
    else if key == "vector_font_size" then
      Applied(d.(mode := Shape, shape := d.shape.(vectorFontSize := IntValue(v))))
    else if key == "shape" then Applied(d.(mode := Shape, shape := d.shape.(shape := StrValue(v))))
    else if key == "fill" then Applied(d.(mode := Shape, shape := d.shape.(fill := StrValue(v))))
    else if key == "vector" then Applied(d.(mode := Shape, shape := d.shape.(vect := v)))
    else if key == "ttl" then Applied(d.(stamp := d.stamp.(ttl := IntValue(v))))
    else if key in IdKeys then Applied(d.(id := StrValue(v)))
    else Applied(d.(command := StrValue(v)))
  }

  /** Text keys switch the item to text mode. */
  lemma TextKeysSetText(key: string, v: Json, d: DrawItem)
    requires key in TextKeys
    ensures ApplyKey(key, v, d).Applied? ==> ApplyKey(key, v, d).item.mode == Text
  {
  }

  /** Shape keys switch the item to shape mode. */
  lemma ShapeKeysSetShape(key: string, v: Json, d: DrawItem)
    requires key in ShapeKeys
    ensures ApplyKey(key, v, d).Applied? ==> ApplyKey(key, v, d).item.mode == Shape
  {
  }

  /** The remaining keys keep the mode. */
  lemma NeutralKeysKeepMode(key: string, v: Json, d: DrawItem)
    requires key in NeutralKeys
    ensures ApplyKey(key, v, d).Applied? ==> ApplyKey(key, v, d).item.mode == d.mode
  {
  }

  /** The id keys set only the id. */
  lemma IdKeysSetId(key: string, v: Json, d: DrawItem)
    requires key in IdKeys
    ensures ApplyKey(key, v, d).Applied? ==> v.JStr? && ApplyKey(key, v, d).item == d.(id := v.s)
  {
  }

  /** `command` sets only the command, `ttl` only the ttl. */
  lemma CommandAndTtlKeys(v: Json, d: DrawItem)
    ensures ApplyKey("command", v, d).Applied? ==> v.JStr? && ApplyKey("command", v, d).item == d.(command := v.s)
    ensures ApplyKey("ttl", v, d).Applied? ==>
              ApplyKey("ttl", v, d).item == d.(stamp := d.stamp.(ttl := ApplyKey("ttl", v, d).item.stamp.ttl))
  {
  }

  /** Only the id keys change the id and only `command` the command. */
  lemma OtherKeysKeepIdAndCommand(key: string, v: Json, d: DrawItem)
    ensures ApplyKey(key, v, d).Applied? && key !in IdKeys ==> ApplyKey(key, v, d).item.id == d.id
    ensures ApplyKey(key, v, d).Applied? && key != "command" ==> ApplyKey(key, v, d).item.command == d.command
  {
    var r := ApplyKey(key, v, d);
    if r.Applied? && key !in IdKeys && key != "command" {
      assert r.item.id == d.id && r.item.command == d.command;
    }
  }

  /** How the walk over an object's members ended. */
  datatype FieldsOutcome =
    | Finished(item: DrawItem)
    | Conflicted(item: DrawItem)
    | FieldsThrew

  /** A processor that moved an already chosen mode to a different one. */
  predicate IsConflict(before: DrawItem, after: DrawItem) {
    before.mode != Idk && after.mode != before.mode
  }

  /** The member walk of parseSingleObject, as a function of the remaining members. */
  function DecodeFields(fs: seq<(string, Json)>, d: DrawItem): (r: FieldsOutcome)
    ensures r.Conflicted? ==> r.item.mode == Idk
    ensures !r.FieldsThrew? ==> r.item.stamp.createdAt == d.stamp.createdAt
    ensures !r.FieldsThrew? ==> r.item.alreadyRendered == d.alreadyRendered
    decreases |fs|
  {
    if fs == [] then Finished(d)
    else match ApplyKey(fs[0].0, fs[0].1, d)
      case Threw => FieldsThrew
      case NoProcessor => DecodeFields(fs[1..], d)
      case Applied(d') =>
        if IsConflict(d, d') then Conflicted(d'.(mode := Idk)) else DecodeFields(fs[1..], d')
  }

  datatype ObjectOutcome = Kept(item: DrawItem) | Dropped | ObjectThrew

  /** The tail of parseSingleObject: keep or drop, and name anonymous items. */
  function Finish(d: DrawItem, counter: nat): (r: (ObjectOutcome, nat))
    ensures r.0.Kept? <==> d.mode != Idk || IsCommand(d)
    ensures r.0.Kept? && d.id != "" ==> r.0.item == d && r.1 == counter
    ensures r.0.Kept? && d.id == "" ==>
              && r.0.item == d.(id := AutoIdPrefix + NatToDecimal(counter),
                                stamp := d.stamp.(ttl := if d.stamp.ttl < 0 then AnonymousTtl else d.stamp.ttl))
              && r.1 == counter + 1
    ensures r.0.Dropped? ==> r.1 == counter
    ensures !r.0.ObjectThrew?
  {
    if d.mode != Idk || IsCommand(d) then
      if d.id == "" then
        var ttl := if d.stamp.ttl < 0 then AnonymousTtl else d.stamp.ttl;
        (Kept(d.(id := AutoIdPrefix + NatToDecimal(counter), stamp := d.stamp.(ttl := ttl))), counter + 1)
      else (Kept(d), counter)
    else (Dropped, counter)
  }

  /** parseSingleObject on one element, given the id counter; returns the
      outcome and the counter afterwards. */
  function DecodeObject(obj: Json, createdAt: int, counter: nat): (r: (ObjectOutcome, nat))
    ensures r.0.Kept? ==> r.0.item.id != "" && r.0.item.stamp.createdAt == createdAt
    ensures r.0.Kept? ==> !r.0.item.alreadyRendered
    ensures r.1 == counter || (r.0.Kept? && r.1 == counter + 1)
  {
    match DecodeFields(Fields(obj), NewItem(createdAt))
    case FieldsThrew => (ObjectThrew, counter)
    case Finished(d) => Finish(d, counter)
    case Conflicted(d) => Finish(d, counter)
  }

  /** parseSingleObject: processes the members in key order, stops at the
      first text/shape mode conflict, then keeps or drops the item. The
      item is created at createdAt. */
  method ParseSingleObject(obj: Json, createdAt: int, counter: nat) returns (r: ObjectOutcome, counter': nat)
    ensures (r, counter') == DecodeObject(obj, createdAt, counter)
  {
    var fs := Fields(obj);
    var d := NewItem(createdAt);
    var i := 0;
    while i < |fs|
      invariant 0 <= i <= |fs|
      invariant DecodeFields(fs, NewItem(createdAt)) == DecodeFields(fs[i..], d)
    {
      var outcome := ApplyKey(fs[i].0, fs[i].1, d);
      FieldsStep(fs, i, d, outcome);
      if outcome.Threw? {
        return ObjectThrew, counter;
      }
      if outcome.Applied? {
        var prevMode := d.mode;
        d := outcome.item;
        if prevMode != Idk && d.mode != prevMode {
          d := d.(mode := Idk);
          r, counter' := Finish(d, counter).0, Finish(d, counter).1;
          return;
        }
      }
      i := i + 1;
    }
    r, counter' := Finish(d, counter).0, Finish(d, counter).1;
  }

  /** One member of the walk: what the processor did to the item decides
      how the walk goes on. */
  lemma FieldsStep(fs: seq<(string, Json)>, i: nat, d: DrawItem, outcome: KeyOutcome)
    requires i < |fs| && outcome == ApplyKey(fs[i].0, fs[i].1, d)
    ensures outcome.Threw? ==> DecodeFields(fs[i..], d) == FieldsThrew
    ensures outcome.NoProcessor? ==> DecodeFields(fs[i..], d) == DecodeFields(fs[i + 1..], d)
    ensures outcome.Applied? && IsConflict(d, outcome.item) ==>
              DecodeFields(fs[i..], d) == Conflicted(outcome.item.(mode := Idk))
    ensures outcome.Applied? && !IsConflict(d, outcome.item) ==>
              DecodeFields(fs[i..], d) == DecodeFields(fs[i + 1..], outcome.item)
  {
    assert fs[i..][0] == fs[i] && fs[i..][1..] == fs[i + 1..];
  }

  /** {"id": id, "text": txt} stores a text item created at createdAt
      under id, and leaves the counter alone. */
  lemma NamedTextObject(id: string, txt: string, createdAt: int, counter: nat)
    requires id != ""
    ensures DecodeObject(JObj([("id", JStr(id)), ("text", JStr(txt))]), createdAt, counter)
            == (Kept(NewItem(createdAt).(id := id, mode := Text, text := NewItem(createdAt).text.(text := txt))), counter)
  {
    var fs := [("id", JStr(id)), ("text", JStr(txt))];
    var d0 := NewItem(createdAt);
    var d1 := d0.(id := id);
    IdKeysSetId("id", JStr(id), d0);
    assert ApplyKey("id", JStr(id), d0) == Applied(d1);
    assert ApplyKey("text", JStr(txt), d1) == Applied(d1.(mode := Text, text := d1.text.(text := txt)));
    assert fs[1..][1..] == [];
    assert DecodeFields(fs, d0) == DecodeFields(fs[1..], d1);
  }

  /** The text handed to parseJsonString: empty, not valid JSON, or a document. */
  datatype Source = EmptyText | Malformed | Document(doc: Json)

  /** The batch map, or the exception that aborts the whole batch. */
  datatype Batch = Parsed(items: Entries<DrawItem>) | ParseFailed

  /** Folding parseSingleObject over the elements, writing result[id] = item;
      element objs[p] is created at stamps[p]. */
  function DecodeAll(objs: seq<Json>, stamps: seq<int>, counter: nat, acc: Entries<DrawItem>): (r: (Batch, nat))
    requires |stamps| == |objs| && Sorted(acc)
    ensures r.0.Parsed? ==> Sorted(r.0.items)
    ensures r.1 >= counter
    decreases |objs|
  {
    if objs == [] then (Parsed(acc), counter)
    else
      var (o, c) := DecodeObject(objs[0], stamps[0], counter);
      match o
      case ObjectThrew => (ParseFailed, c)
      case Dropped => DecodeAll(objs[1..], stamps[1..], c, acc)
      case Kept(d) => DecodeAll(objs[1..], stamps[1..], c, Put(acc, d.id, d))
  }

  /** The creation times of the first n elements of a batch. */
  function Readings(clock: Clock, n: nat): (r: seq<int>)
    ensures |r| == n && forall p :: 0 <= p < n ==> r[p] == clock(p)
  {
    seq(n, p requires 0 <= p => clock(p))
  }

  /** The elements parseJsonString walks: an array's elements, or the document itself. */
  function Elements(doc: Json): seq<Json> {
    if doc.JArr? then doc.elems else [doc]
  }

  function DecodeSource(src: Source, clock: Clock, counter: nat): (r: (Batch, nat))
    ensures r.0.Parsed? ==> Sorted(r.0.items)
    ensures src.EmptyText? ==> r == (Parsed([]), counter)
    ensures src.Malformed? ==> r == (ParseFailed, counter)
  {
    match src
    case EmptyText => (Parsed([]), counter)
    case Malformed => (ParseFailed, counter)
    case Document(doc) => DecodeAll(Elements(doc), Readings(clock, |Elements(doc)|), counter, [])
  }

  /** parseJsonString, with the static id counter passed in and returned and
      the steady clock read once per element. */
  method ParseJsonString(src: Source, clock: Clock, counter: nat) returns (r: Batch, counter': nat)
    ensures (r, counter') == DecodeSource(src, clock, counter)
  {
    if src.EmptyText? {
      return Parsed([]), counter;
    }
    if src.Malformed? {
      return ParseFailed, counter;
    }
    var objs := Elements(src.doc);
    ghost var stamps := Readings(clock, |objs|);
    var result: Entries<DrawItem> := [];
    counter' := counter;
    var i := 0;
    while i < |objs|
      invariant 0 <= i <= |objs|
      invariant Sorted(result)
      invariant DecodeAll(objs, stamps, counter, []) == DecodeAll(objs[i..], stamps[i..], counter', result)
    {
      assert objs[i..][0] == objs[i] && objs[i..][1..] == objs[i + 1..];
      assert stamps[i..][0] == clock(i) && stamps[i..][1..] == stamps[i + 1..];
      var o;
      o, counter' := ParseSingleObject(objs[i], clock(i), counter');
      if o.ObjectThrew? {
        return ParseFailed, counter';
      }
      if o.Kept? {
        result := Put(result, o.item.id, o.item);
      }
      i := i + 1;
    }
    r := Parsed(result);
  }

  // ---------------------------------------------------------------------
  // Properties of the decoder

  /** A mode conflict ends the walk: the members after it are never read. */
  lemma {:induction false} ConflictIgnoresRest(pre: seq<(string, Json)>, post: seq<(string, Json)>, d: DrawItem)
    requires DecodeFields(pre, d).Conflicted?
    ensures DecodeFields(pre + post, d) == DecodeFields(pre, d)
    decreases |pre|
  {
    assert pre != [];
    assert (pre + post)[0] == pre[0] && (pre + post)[1..] == pre[1..] + post;
    match ApplyKey(pre[0].0, pre[0].1, d)
    case Threw =>
    case NoProcessor => ConflictIgnoresRest(pre[1..], post, d);
    case Applied(d') =>
      if !IsConflict(d, d') { ConflictIgnoresRest(pre[1..], post, d'); }
  }

  /** Some member of the object is a key of the given group with an acceptable value. */
  predicate HasKeyOf(fs: seq<(string, Json)>, keys: set<string>) {
    exists i :: 0 <= i < |fs| && fs[i].0 in keys
  }

  lemma HasKeyOfCons(fs: seq<(string, Json)>, keys: set<string>)
    requires fs != []
    ensures HasKeyOf(fs, keys) <==> fs[0].0 in keys || HasKeyOf(fs[1..], keys)
  {
    if HasKeyOf(fs, keys) {
      var i :| 0 <= i < |fs| && fs[i].0 in keys;
      if i > 0 { assert fs[1..][i - 1] == fs[i]; }
    }
    if HasKeyOf(fs[1..], keys) {
      var i :| 0 <= i < |fs[1..]| && fs[1..][i].0 in keys;
      assert fs[i + 1] == fs[1..][i];
    }
  }

  /** A walk that reads every member without a conflict ends in the mode of
      the last mode-setting key, so it cannot have met both a text and a shape key. */
  lemma {:induction false} FinishedModeReflectsKeys(fs: seq<(string, Json)>, d: DrawItem)
    requires DecodeFields(fs, d).Finished?
    ensures HasKeyOf(fs, TextKeys) ==> DecodeFields(fs, d).item.mode == Text
    ensures HasKeyOf(fs, ShapeKeys) ==> DecodeFields(fs, d).item.mode == Shape
    ensures !HasKeyOf(fs, TextKeys) && !HasKeyOf(fs, ShapeKeys) ==> DecodeFields(fs, d).item.mode == d.mode
    ensures d.mode != Idk ==> DecodeFields(fs, d).item.mode == d.mode
    decreases |fs|
  {
    if fs != [] {
      var rest := fs[1..];
      HasKeyOfCons(fs, TextKeys);
      HasKeyOfCons(fs, ShapeKeys);
      match ApplyKey(fs[0].0, fs[0].1, d)
      case NoProcessor =>
        FinishedModeReflectsKeys(rest, d);
      case Applied(d') =>
        var key := fs[0].0;
        if key in TextKeys {
          TextKeysSetText(key, fs[0].1, d);
        } else if key in ShapeKeys {
          ShapeKeysSetShape(key, fs[0].1, d);
        } else {
          NeutralKeysKeepMode(key, fs[0].1, d);
        }
        FinishedModeReflectsKeys(rest, d');
    }
  }

  /** An object holding both a text key and a shape key, and no command, is
      never stored: the second of them causes a conflict (or an earlier value
      throws and aborts the batch). */
  lemma MixedObjectNotKept(obj: Json, createdAt: int, counter: nat)
    requires HasKeyOf(Fields(obj), TextKeys) && HasKeyOf(Fields(obj), ShapeKeys)
    requires !HasKeyOf(Fields(obj), {"command"})
    ensures !DecodeObject(obj, createdAt, counter).0.Kept?
  {
    var fs := Fields(obj);
    var out := DecodeFields(fs, NewItem(createdAt));
    if out.Finished? {
      FinishedModeReflectsKeys(fs, NewItem(createdAt));
    } else if out.Conflicted? {
      CommandOnlyFromKey(fs, NewItem(createdAt));
    }
  }

  /** Without a "command" member the walk never sets a command. */
  lemma {:induction false} CommandOnlyFromKey(fs: seq<(string, Json)>, d: DrawItem)
    requires !HasKeyOf(fs, {"command"})
    requires !DecodeFields(fs, d).FieldsThrew?
    ensures DecodeFields(fs, d).item.command == d.command
    decreases |fs|
  {
    if fs != [] {
      assert fs[0].0 != "command";
      HasKeyOfCons(fs, {"command"});
      match ApplyKey(fs[0].0, fs[0].1, d)
      case NoProcessor => CommandOnlyFromKey(fs[1..], d);
      case Applied(d') =>
        if !IsConflict(d, d') { CommandOnlyFromKey(fs[1..], d'); }
    }
  }

  /** The outcome of an object whose walk names it does not depend on the counter. */
  ghost predicate NamedOutcome(obj: Json, createdAt: int, d: DrawItem) {
    forall c: nat {:trigger DecodeObject(obj, createdAt, c)} :: DecodeObject(obj, createdAt, c).0 == Kept(d)
  }

  /** The item an element stores under `id` for some counter value. */
  ghost predicate MayStoreUnder(obj: Json, createdAt: int, id: string) {
    exists c: nat {:trigger DecodeObject(obj, createdAt, c)} ::
      DecodeObject(obj, createdAt, c).0.Kept? && DecodeObject(obj, createdAt, c).0.item.id == id
  }

  /** Within a batch the last element stored under an id wins: if element i
      is kept as d, and no later element can be stored under d.id, the batch
      maps d.id to d, which carries element i's creation time. */
  lemma {:induction false} LastWins(objs: seq<Json>, stamps: seq<int>, counter: nat, acc: Entries<DrawItem>,
                                    i: nat, d: DrawItem)
    requires |stamps| == |objs| && Sorted(acc)
    requires DecodeAll(objs, stamps, counter, acc).0.Parsed?
    requires i < |objs| && NamedOutcome(objs[i], stamps[i], d)
    requires forall j :: i < j < |objs| ==> !MayStoreUnder(objs[j], stamps[j], d.id)
    ensures Get(DecodeAll(objs, stamps, counter, acc).0.items, d.id) == Some(d)
    ensures d.stamp.createdAt == stamps[i]
    decreases |objs|
  {
    var (o, c) := DecodeObject(objs[0], stamps[0], counter);
    var acc' := if o.Kept? then Put(acc, o.item.id, o.item) else acc;
    assert DecodeAll(objs, stamps, counter, acc) == DecodeAll(objs[1..], stamps[1..], c, acc');
    if i == 0 {
      assert o == Kept(d);
      assert Get(acc', d.id) == Some(d);
      KeptIdSurvives(objs[1..], stamps[1..], c, acc', d);
    } else {
      LastWins(objs[1..], stamps[1..], c, acc', i - 1, d);
    }
  }

  /** An entry already in the accumulator survives the remaining elements
      when none of them can be stored under its id. */
  lemma {:induction false} KeptIdSurvives(objs: seq<Json>, stamps: seq<int>, counter: nat,
                                          acc: Entries<DrawItem>, d: DrawItem)
    requires |stamps| == |objs| && Sorted(acc) && Get(acc, d.id) == Some(d)
    requires DecodeAll(objs, stamps, counter, acc).0.Parsed?
    requires forall j :: 0 <= j < |objs| ==> !MayStoreUnder(objs[j], stamps[j], d.id)
    ensures Get(DecodeAll(objs, stamps, counter, acc).0.items, d.id) == Some(d)
    decreases |objs|
  {
    if objs != [] {
      var (o, c) := DecodeObject(objs[0], stamps[0], counter);
      assert !MayStoreUnder(objs[0], stamps[0], d.id);
      var acc' := if o.Kept? then Put(acc, o.item.id, o.item) else acc;
      assert Get(acc', d.id) == Some(d);
      KeptIdSurvives(objs[1..], stamps[1..], c, acc', d);
    }
  }

  /** Of two items the batch keeps, the one stored by the later element was
      created later as soon as the clock has ticked between the two
      elements, and with a steady clock it is never older. So when the two
      are renamed duplicates of each other, the later element's item is the
      newer one, and it is the one that survives the duplicate removal. */
  lemma LaterElementIsNewer(doc: Json, clock: Clock, counter: nat, i: nat, j: nat, a: DrawItem, b: DrawItem)
    requires DecodeSource(Document(doc), clock, counter).0.Parsed?
    requires var objs := Elements(doc);
             i < j < |objs| && NamedOutcome(objs[i], clock(i), a) && NamedOutcome(objs[j], clock(j), b)
    requires var objs := Elements(doc);
             forall p :: i < p < |objs| ==> !MayStoreUnder(objs[p], clock(p), a.id)
    requires var objs := Elements(doc);
             forall p :: j < p < |objs| ==> !MayStoreUnder(objs[p], clock(p), b.id)
    ensures var items := DecodeSource(Document(doc), clock, counter).0.items;
            Get(items, a.id) == Some(a) && Get(items, b.id) == Some(b)
    ensures Steady(clock) ==> a.stamp.createdAt <= b.stamp.createdAt
    ensures clock(i) < clock(j) ==> a.stamp.createdAt < b.stamp.createdAt
  {
    var objs := Elements(doc);
    var stamps := Readings(clock, |objs|);
    LastWins(objs, stamps, counter, [], i, a);
    LastWins(objs, stamps, counter, [], j, b);
  }

  /** Anonymous items of one batch receive distinct automatic ids. */
  lemma AutoIdsDistinct(d1: DrawItem, d2: DrawItem, c1: nat, c2: nat)
    requires d1.id == "" && d2.id == "" && Finish(d1, c1).0.Kept? && Finish(d2, c2).0.Kept?
    requires c1 != c2
    ensures Finish(d1, c1).0.item.id != Finish(d2, c2).0.item.id
  {
    if Finish(d1, c1).0.item.id == Finish(d2, c2).0.item.id {
      var p := AutoIdPrefix;
      assert (p + NatToDecimal(c1))[|p|..] == NatToDecimal(c1);
      assert (p + NatToDecimal(c2))[|p|..] == NatToDecimal(c2);
      NatToDecimalInjective(c1, c2);
    }
  }
}
