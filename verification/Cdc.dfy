/**
 Row changes of the audited table on their way to NATS: decoding pgoutput
 messages with the relations announced before them, and redacting what is
 published. SHA-256 is a function `hash` on strings.
 */
module Cdc {
  import opened Protocol
  import opened Sorting

  const AUDIT_TABLE := "hanko_audit"

  type Row = map<string, string>

  datatype Relation = Relation(id: nat, name: string, columns: seq<string>)

  /** 't' is text, 'n' is null, anything else an unchanged value that was not sent. */
  datatype Column = Column(kind: char, data: string)

  type Tuple = Option<seq<Column>>

  datatype Message =
    | RelationMsg(rel: Relation)
    | InsertMsg(relId: nat, new_: Tuple)
    | UpdateMsg(relId: nat, old_: Tuple, new_: Tuple)
    | DeleteMsg(relId: nat, old_: Tuple)
    | OtherMsg
    | Unparsable

  datatype Op = Insert | Update | Delete

  datatype Change = Change(op: Op, table: string, rowId: string, fields: Option<Row>, old_: Option<Row>)

  datatype Event = Event(table: string, rowId: string, op: Op, hashed: Option<Row>, diff: seq<string>, tombstone: string)

  // ----- Tuples -----

  function Columns(t: Tuple): seq<Column> {
    if t.None? then [] else t.value
  }

  /** Column i of the tuple gives a value to its name. */
  predicate Gives(rel: Relation, t: Tuple, i: nat) {
    i < |Columns(t)| && i < |rel.columns| && Columns(t)[i].kind in {'t', 'n'}
  }

  /** A null becomes the empty string. */
  function Given(c: Column): string {
    if c.kind == 't' then c.data else ""
  }

  /** The row that the first n columns make up. */
  function RowUpTo(rel: Relation, t: Tuple, n: nat): Row {
    if n == 0 then map[]
    else if Gives(rel, t, n - 1) then RowUpTo(rel, t, n - 1)[rel.columns[n - 1] := Given(Columns(t)[n - 1])]
    else RowUpTo(rel, t, n - 1)
  }

  function RowOf(rel: Relation, t: Tuple): Row {
    RowUpTo(rel, t, |Columns(t)|)
  }

  predicate GivesTo(rel: Relation, t: Tuple, i: nat, name: string) {
    Gives(rel, t, i) && rel.columns[i] == name
  }

  /** Of the first n columns, i is the last that gives a value to the name. */
  ghost predicate LastGiver(rel: Relation, t: Tuple, n: nat, i: nat, name: string) {
    i < n && GivesTo(rel, t, i, name) && forall j :: i < j < n ==> !GivesTo(rel, t, j, name)
  }

  lemma RowNext(rel: Relation, t: Tuple, n: nat, name: string)
    ensures name in RowUpTo(rel, t, n + 1) <==> name in RowUpTo(rel, t, n) || GivesTo(rel, t, n, name)
    ensures name in RowUpTo(rel, t, n + 1) ==>
              RowUpTo(rel, t, n + 1)[name] ==
              if GivesTo(rel, t, n, name) then Given(Columns(t)[n]) else RowUpTo(rel, t, n)[name]
  {
  }

  lemma {:induction false} RowHas(rel: Relation, t: Tuple, n: nat, name: string)
    ensures name in RowUpTo(rel, t, n) <==> exists i: nat :: i < n && GivesTo(rel, t, i, name)
  {
    if n > 0 {
      RowHas(rel, t, n - 1, name);
      RowNext(rel, t, n - 1, name);
    }
  }

  lemma {:induction false} RowLast(rel: Relation, t: Tuple, n: nat, i: nat, name: string)
    requires LastGiver(rel, t, n, i, name)
    ensures name in RowUpTo(rel, t, n) && RowUpTo(rel, t, n)[name] == Given(Columns(t)[i])
    decreases n
  {
    RowNext(rel, t, n - 1, name);
    if i < n - 1 {
      RowLast(rel, t, n - 1, i, name);
    }
  }

  /** A name has a value exactly if some column gives one, and then that of the last such column. */
  lemma RowMeaning(rel: Relation, t: Tuple, n: nat, name: string)
    ensures name in RowUpTo(rel, t, n) <==> exists i: nat :: i < n && GivesTo(rel, t, i, name)
    ensures forall i: nat :: LastGiver(rel, t, n, i, name) ==>
                          name in RowUpTo(rel, t, n) && RowUpTo(rel, t, n)[name] == Given(Columns(t)[i])
  {
    RowHas(rel, t, n, name);
    forall i: nat | LastGiver(rel, t, n, i, name)
      ensures name in RowUpTo(rel, t, n) && RowUpTo(rel, t, n)[name] == Given(Columns(t)[i])
    {
      RowLast(rel, t, n, i, name);
    }
  }

  /** Column i is for this name and carries a text or a null. */
  predicate Carries(rel: Relation, cols: seq<Column>, i: nat, name: string) {
    i < |cols| && i < |rel.columns| && rel.columns[i] == name && (cols[i].kind == 't' || cols[i].kind == 'n')
  }

  /** The last column of the tuple that carries the name says this value: its text, or nothing for a null. */
  ghost predicate Says(rel: Relation, t: Tuple, name: string, value: string) {
    t.Some? && exists i: nat :: Carries(rel, t.value, i, name) && (forall j: nat :: i < j ==> !Carries(rel, t.value, j, name))
                                && value == if t.value[i].kind == 't' then t.value[i].data else ""
  }

  /** The row holds what the tuple says and nothing else. */
  ghost predicate IsRow(rel: Relation, t: Tuple, row: Row) {
    forall name, value :: Says(rel, t, name, value) <==> name in row && row[name] == value
  }

  lemma GivesIsCarries(rel: Relation, t: Tuple, i: nat, name: string)
    ensures GivesTo(rel, t, i, name) <==> t.Some? && Carries(rel, t.value, i, name)
  {
  }

  lemma {:induction false} FindLastGiver(rel: Relation, t: Tuple, n: nat, name: string) returns (i: nat)
    requires exists k: nat :: k < n && GivesTo(rel, t, k, name)
    ensures LastGiver(rel, t, n, i, name)
  {
    if GivesTo(rel, t, n - 1, name) {
      i := n - 1;
    } else {
      i := FindLastGiver(rel, t, n - 1, name);
    }
  }

  lemma SaysByLastGiver(rel: Relation, t: Tuple, i: nat, name: string)
    requires LastGiver(rel, t, |Columns(t)|, i, name)
    ensures Says(rel, t, name, Given(Columns(t)[i]))
  {
    GivesIsCarries(rel, t, i, name);
    forall j: nat | i < j ensures !Carries(rel, t.value, j, name) {
      GivesIsCarries(rel, t, j, name);
    }
  }

  lemma LastGiverSays(rel: Relation, t: Tuple, name: string, value: string) returns (i: nat)
    requires Says(rel, t, name, value)
    ensures LastGiver(rel, t, |Columns(t)|, i, name) && value == Given(Columns(t)[i])
  {
    i :| Carries(rel, t.value, i, name) && (forall j: nat :: i < j ==> !Carries(rel, t.value, j, name))
         && value == if t.value[i].kind == 't' then t.value[i].data else "";
    GivesIsCarries(rel, t, i, name);
    forall j: nat | i < j ensures !GivesTo(rel, t, j, name) {
      GivesIsCarries(rel, t, j, name);
    }
  }

  /** The row of a tuple is the one row that holds what the tuple says. */
  lemma RowIsRow(rel: Relation, t: Tuple)
    ensures IsRow(rel, t, RowOf(rel, t))
  {
    forall name, value
      ensures Says(rel, t, name, value) <==> name in RowOf(rel, t) && RowOf(rel, t)[name] == value
    {
      var n := |Columns(t)|;
      if Says(rel, t, name, value) {
        var i := LastGiverSays(rel, t, name, value);
        RowLast(rel, t, n, i, name);
      }
      if name in RowOf(rel, t) {
        RowHas(rel, t, n, name);
        var i := FindLastGiver(rel, t, n, name);
        RowLast(rel, t, n, i, name);
        SaysByLastGiver(rel, t, i, name);
      }
    }
  }

  lemma RowUnique(rel: Relation, t: Tuple, row: Row, other: Row)
    requires IsRow(rel, t, row) && IsRow(rel, t, other)
    ensures row == other
  {
    forall name ensures name in row <==> name in other {
      if name in row {
        assert Says(rel, t, name, row[name]);
      }
      if name in other {
        assert Says(rel, t, name, other[name]);
      }
    }
    forall name | name in row ensures row[name] == other[name] {
      assert Says(rel, t, name, row[name]);
    }
  }

  method TupleToMap(rel: Relation, t: Tuple) returns (out: Row)
    ensures out == RowOf(rel, t)
  {
    out := map[];
    if t.None? {
      return;
    }
    var cols := t.value;
    for i := 0 to |cols|
      invariant out == RowUpTo(rel, t, i)
    {
      if i >= |rel.columns| {
        RowStops(rel, t, i, |cols|);
        return;
      }
      match cols[i].kind
      case 't' => out := out[rel.columns[i] := cols[i].data];
      case 'n' => out := out[rel.columns[i] := ""];
      case _ =>
    }
  }

  lemma {:induction false} RowStops(rel: Relation, t: Tuple, m: nat, n: nat)
    requires |rel.columns| <= m <= n
    ensures RowUpTo(rel, t, n) == RowUpTo(rel, t, m)
  {
    if m < n {
      RowStops(rel, t, m, n - 1);
    }
  }

  function RowId(row: Row): string {
    if "id" in row then row["id"] else ""
  }

  // ----- Decoding -----

  /** The change that a message describes under a relation. */
  function Decode(rel: Relation, m: Message): Change
    requires m.InsertMsg? || m.UpdateMsg? || m.DeleteMsg?
  {
    match m
    case InsertMsg(_, t) =>
      Change(Insert, rel.name, RowId(RowOf(rel, t)), Some(RowOf(rel, t)), None)
    case UpdateMsg(_, o, t) =>
      var id := RowId(RowOf(rel, t));
      Change(Update, rel.name, if id == "" then RowId(RowOf(rel, o)) else id, Some(RowOf(rel, t)), Some(RowOf(rel, o)))
    case DeleteMsg(_, o) =>
      Change(Delete, rel.name, RowId(RowOf(rel, o)), None, Some(RowOf(rel, o)))
  }

  /** The change says what its message's tuples say. */
  ghost predicate Describes(rel: Relation, m: Message, c: Change) {
    && c.table == rel.name
    && match m
       case InsertMsg(_, t) =>
         c.op == Insert && c.fields.Some? && c.old_.None? && IsRow(rel, t, c.fields.value) && IdIs(rel, t, c.rowId)
       case UpdateMsg(_, o, t) =>
         && c.op == Update && c.fields.Some? && c.old_.Some? && IsRow(rel, t, c.fields.value) && IsRow(rel, o, c.old_.value)
         && (if IdIs(rel, t, "") then IdIs(rel, o, c.rowId) else IdIs(rel, t, c.rowId))
       case DeleteMsg(_, o) =>
         c.op == Delete && c.fields.None? && c.old_.Some? && IsRow(rel, o, c.old_.value) && IdIs(rel, o, c.rowId)
       case _ => false
  }

  /** The tuple says this id, or says none and it is empty. */
  ghost predicate IdIs(rel: Relation, t: Tuple, id: string) {
    Says(rel, t, "id", id) || (id == "" && forall value :: !Says(rel, t, "id", value))
  }

  lemma RowIdIs(rel: Relation, t: Tuple, id: string)
    ensures IdIs(rel, t, id) <==> id == RowId(RowOf(rel, t))
  {
    RowIsRow(rel, t);
    var row := RowOf(rel, t);
    if "id" in row {
      assert Says(rel, t, "id", row["id"]);
    }
  }

  /** Decoding describes the message, with the new row and the old one each in its place. */
  lemma DecodeMeaning(rel: Relation, m: Message)
    requires m.InsertMsg? || m.UpdateMsg? || m.DeleteMsg?
    ensures Describes(rel, m, Decode(rel, m))
  {
    var id := Decode(rel, m).rowId;
    match m
    case InsertMsg(_, t) =>
      RowIsRow(rel, t);
      RowIdIs(rel, t, id);
    case UpdateMsg(_, o, t) =>
      RowIsRow(rel, t);
      RowIsRow(rel, o);
      RowIdIs(rel, t, "");
      RowIdIs(rel, t, id);
      RowIdIs(rel, o, id);
    case DeleteMsg(_, o) =>
      RowIsRow(rel, o);
      RowIdIs(rel, o, id);
  }

  // ----- Redaction -----

  /** The columns that differ: other value, or present on one side only. */
  ghost function Changed(before: Row, after: Row): set<string> {
    set k | k in before.Keys + after.Keys && !(k in before && k in after && before[k] == after[k])
  }

  function Hashed(hash: string -> string, row: Row): Row {
    map k | k in row :: hash(row[k])
  }

  /** The loops over both maps and the sort: every differing column once, ascending by code points. */
  method DiffColumns(before: Row, after: Row) returns (out: seq<string>)
    ensures out == SortedKeys(Changed(before, after))
  {
    var changed: set<string> := {};
    var rest := after.Keys;
    while rest != {}
      invariant rest <= after.Keys
      invariant changed == set k | k in after && k !in rest && (k !in before || before[k] != after[k])
      decreases rest
    {
      var k :| k in rest;
      if k !in before || before[k] != after[k] {
        changed := changed + {k};
      }
      rest := rest - {k};
    }
    rest := before.Keys;
    ghost var first := changed;
    while rest != {}
      invariant rest <= before.Keys
      invariant changed == first + set k | k in before && k !in rest && k !in after
      decreases rest
    {
      var k :| k in rest;
      if k !in after {
        changed := changed + {k};
      }
      rest := rest - {k};
    }
    assert changed == Changed(before, after);
    out := CollectSorted(changed);
  }

  /** What is published for a change. */
  ghost function Redacted(hash: string -> string, c: Change): Event {
    match c.op
    case Insert => Event(c.table, c.rowId, Insert, HashedOption(hash, c.fields), [], "")
    case Update => Event(c.table, c.rowId, Update, HashedOption(hash, c.fields),
                         SortedKeys(Changed(OrEmpty(c.old_), OrEmpty(c.fields))), "")
    case Delete => Event(c.table, c.rowId, Delete, HashedOption(hash, c.old_), [], "row_deleted")
  }

  function OrEmpty(row: Option<Row>): Row {
    if row.None? then map[] else row.value
  }

  function HashedOption(hash: string -> string, row: Option<Row>): Option<Row> {
    if row.None? then None else Some(Hashed(hash, row.value))
  }

  /** A nil map stays nil; otherwise every value is replaced by its hash. */
  method HashFields(hash: string -> string, row: Option<Row>) returns (r: Option<Row>)
    ensures r == HashedOption(hash, row)
  {
    if row.None? {
      return None;
    }
    var out, rest := map[], row.value.Keys;
    while rest != {}
      invariant rest <= row.value.Keys && out == map k | k in row.value && k !in rest :: hash(row.value[k])
      decreases rest
    {
      var k :| k in rest;
      out := out[k := hash(row.value[k])];
      rest := rest - {k};
    }
    assert out == Hashed(hash, row.value);
    return Some(out);
  }

  method PublishChange(hash: string -> string, c: Change) returns (ev: Event)
    ensures ev == Redacted(hash, c)
  {
    ev := Event(c.table, c.rowId, c.op, None, [], "");
    match c.op
    case Insert =>
      var h := HashFields(hash, c.fields);
      ev := ev.(hashed := h);
    case Update =>
      var h := HashFields(hash, c.fields);
      var diff := DiffColumns(OrEmpty(c.old_), OrEmpty(c.fields));
      ev := ev.(hashed := h, diff := diff);
    case Delete =>
      ev := ev.(tombstone := "row_deleted");
      if c.old_.Some? {
        var h := HashFields(hash, c.old_);
        ev := ev.(hashed := h);
      }
  }

  /** No column changes its value without changing its hash. */
  ghost predicate Tells(hash: string -> string, before: Row, after: Row) {
    forall k :: k in before && k in after && before[k] != after[k] ==> hash(before[k]) != hash(after[k])
  }

  /** The diff can be computed from the hashes exactly when no changed column collides. */
  lemma DiffFromHashes(hash: string -> string, before: Row, after: Row)
    ensures Changed(Hashed(hash, before), Hashed(hash, after)) == Changed(before, after) <==> Tells(hash, before, after)
  {
    var x, y := Changed(Hashed(hash, before), Hashed(hash, after)), Changed(before, after);
    if k :| k in before && k in after && before[k] != after[k] && hash(before[k]) == hash(after[k]) {
      assert k in y && k !in x;
    } else {
      assert x == y;
    }
  }

  /** An event put together from hashed rows alone. */
  ghost function FromHashes(op: Op, table: string, rowId: string, fields: Option<Row>, old_: Option<Row>): Event {
    match op
    case Insert => Event(table, rowId, Insert, fields, [], "")
    case Update => Event(table, rowId, Update, fields, SortedKeys(Changed(OrEmpty(old_), OrEmpty(fields))), "")
    case Delete => Event(table, rowId, Delete, old_, [], "row_deleted")
  }

  /**
   Apart from the row id, nothing of the row but column names and hashes goes
   into an event, except that an update tells a changed column whose hash collides.
   */
  lemma EventHidesValues(hash: string -> string, c: Change)
    ensures Redacted(hash, c) == FromHashes(c.op, c.table, c.rowId, HashedOption(hash, c.fields), HashedOption(hash, c.old_))
            <==> (c.op == Update ==> Tells(hash, OrEmpty(c.old_), OrEmpty(c.fields)))
  {
    var before, after := OrEmpty(c.old_), OrEmpty(c.fields);
    DiffFromHashes(hash, before, after);
    assert Hashed(hash, before) == OrEmpty(HashedOption(hash, c.old_));
    assert Hashed(hash, after) == OrEmpty(HashedOption(hash, c.fields));
    assert Elements(SortedKeys(Changed(before, after))) == Changed(before, after);
  }

  // ----- What an event tells of its message -----

  /** The tuple says something of this name. */
  ghost predicate Names(rel: Relation, t: Tuple, name: string) {
    exists value :: Says(rel, t, name, value)
  }

  /** The hashed row has the names that the tuple says something of, each with the hash of what it says. */
  ghost predicate HashesOf(hash: string -> string, rel: Relation, t: Tuple, hashed: Option<Row>) {
    && hashed.Some?
    && (forall name :: name in hashed.value <==> Names(rel, t, name))
    && (forall name, value :: Says(rel, t, name, value) ==> name in hashed.value && hashed.value[name] == hash(value))
  }

  /** The two tuples say different things of this name, or only one of them says something. */
  ghost predicate Differ(rel: Relation, o: Tuple, t: Tuple, name: string) {
    (Names(rel, o, name) || Names(rel, t, name)) && forall value :: !(Says(rel, o, name, value) && Says(rel, t, name, value))
  }

  /** The event reports the message under this relation. */
  ghost predicate Reports(hash: string -> string, rel: Relation, m: Message, ev: Event) {
    && ev.table == rel.name
    && match m
       case InsertMsg(_, t) =>
         && ev.op == Insert && HashesOf(hash, rel, t, ev.hashed) && IdIs(rel, t, ev.rowId)
         && ev.diff == [] && ev.tombstone == ""
       case UpdateMsg(_, o, t) =>
         && ev.op == Update && HashesOf(hash, rel, t, ev.hashed)
         && (if IdIs(rel, t, "") then IdIs(rel, o, ev.rowId) else IdIs(rel, t, ev.rowId))
         && Ascending(ev.diff) && (forall name :: name in ev.diff <==> Differ(rel, o, t, name)) && ev.tombstone == ""
       case DeleteMsg(_, o) =>
         && ev.op == Delete && HashesOf(hash, rel, o, ev.hashed) && IdIs(rel, o, ev.rowId)
         && ev.diff == [] && ev.tombstone == "row_deleted"
       case _ => false
  }

  lemma RowNames(rel: Relation, t: Tuple, row: Row, name: string)
    requires IsRow(rel, t, row)
    ensures Names(rel, t, name) <==> name in row
  {
    if name in row {
      assert Says(rel, t, name, row[name]);
    }
  }

  lemma HashedRow(hash: string -> string, rel: Relation, t: Tuple, row: Row)
    requires IsRow(rel, t, row)
    ensures HashesOf(hash, rel, t, Some(Hashed(hash, row)))
  {
    forall name ensures name in Hashed(hash, row) <==> Names(rel, t, name) {
      RowNames(rel, t, row, name);
    }
  }

  lemma ChangedNames(rel: Relation, o: Tuple, t: Tuple, before: Row, after: Row, name: string)
    requires IsRow(rel, o, before) && IsRow(rel, t, after)
    ensures name in Changed(before, after) <==> Differ(rel, o, t, name)
  {
    RowNames(rel, o, before, name);
    RowNames(rel, t, after, name);
    if name in before && name in after && before[name] == after[name] {
      assert Says(rel, o, name, before[name]) && Says(rel, t, name, before[name]);
    }
  }

  lemma DiffNames(rel: Relation, o: Tuple, t: Tuple, before: Row, after: Row, diff: seq<string>)
    requires IsRow(rel, o, before) && IsRow(rel, t, after) && diff == SortedKeys(Changed(before, after))
    ensures Ascending(diff) && forall name :: name in diff <==> Differ(rel, o, t, name)
  {
    forall name ensures name in diff <==> Differ(rel, o, t, name) {
      ChangedNames(rel, o, t, before, after, name);
      assert name in diff <==> name in Elements(diff);
    }
  }

  /** What is published for a decoded message reports the message. */
  lemma EventMeaning(hash: string -> string, rel: Relation, m: Message)
    requires IsRowChange(m)
    ensures Reports(hash, rel, m, Redacted(hash, Decode(rel, m)))
  {
    var c := Decode(rel, m);
    DecodeMeaning(rel, m);
    match m
    case InsertMsg(_, t) =>
      HashedRow(hash, rel, t, c.fields.value);
    case UpdateMsg(_, o, t) =>
      HashedRow(hash, rel, t, c.fields.value);
      DiffNames(rel, o, t, c.old_.value, c.fields.value, Redacted(hash, c).diff);
    case DeleteMsg(_, o) =>
      HashedRow(hash, rel, o, c.old_.value);
  }

  // ----- The decoder over a stream -----

  /** The last relation announced under this id among the first n messages. */
  ghost function Latest(msgs: seq<Message>, n: nat, id: nat): Option<Relation>
    requires n <= |msgs|
  {
    if n == 0 then None
    else if msgs[n - 1].RelationMsg? && msgs[n - 1].rel.id == id then Some(msgs[n - 1].rel)
    else Latest(msgs, n - 1, id)
  }

  /** It is indeed a message of the stream, with no later one for the same id; none means that there was none. */
  lemma {:induction false} LatestMeaning(msgs: seq<Message>, n: nat, id: nat)
    requires n <= |msgs|
    ensures Latest(msgs, n, id).None? ==> forall i :: 0 <= i < n && msgs[i].RelationMsg? ==> msgs[i].rel.id != id
    ensures Latest(msgs, n, id).Some? ==>
              exists i :: 0 <= i < n && msgs[i] == RelationMsg(Latest(msgs, n, id).value) && msgs[i].rel.id == id &&
                          forall j :: i < j < n && msgs[j].RelationMsg? ==> msgs[j].rel.id != id
  {
    if n > 0 {
      LatestMeaning(msgs, n - 1, id);
      if msgs[n - 1].RelationMsg? && msgs[n - 1].rel.id == id {
        assert msgs[n - 1] == RelationMsg(Latest(msgs, n, id).value);
      } else if Latest(msgs, n, id).Some? {
        var i :| 0 <= i < n - 1 && msgs[i] == RelationMsg(Latest(msgs, n - 1, id).value) && msgs[i].rel.id == id &&
                 forall j :: i < j < n - 1 && msgs[j].RelationMsg? ==> msgs[j].rel.id != id;
        assert msgs[i] == RelationMsg(Latest(msgs, n, id).value);
      }
    }
  }

  predicate IsRowChange(m: Message) {
    m.InsertMsg? || m.UpdateMsg? || m.DeleteMsg?
  }

  /**
   The event for message n of a stream: only for a row change, only under a
   relation announced before it, only if the latest such announcement calls it
   the audited table, and decoded with that announcement.
   */
  ghost function Expected(hash: string -> string, msgs: seq<Message>, n: nat): Option<Event>
    requires n < |msgs|
  {
    if !IsRowChange(msgs[n]) then None
    else
      var rel :- Latest(msgs, n, msgs[n].relId);
      if rel.name == AUDIT_TABLE then Some(Redacted(hash, Decode(rel, msgs[n]))) else None
  }

  /** The relations after a message. */
  function Announced(relations: map<nat, Relation>, m: Message): map<nat, Relation> {
    if m.RelationMsg? then relations[m.rel.id := m.rel] else relations
  }

  /** The event for a message when these relations are known. */
  ghost function EventFor(hash: string -> string, relations: map<nat, Relation>, m: Message): Option<Event> {
    if IsRowChange(m) && m.relId in relations && relations[m.relId].name == AUDIT_TABLE
    then Some(Redacted(hash, Decode(relations[m.relId], m))) else None
  }

  class CdcDecoder {
    var relations: map<nat, Relation>

    constructor ()
      ensures relations == map[]
    {
      relations := map[];
    }

    /** Decodes a row change, None when its relation is unknown. */
    method Handle(m: Message) returns (r: Option<Change>)
      requires IsRowChange(m)
      ensures r == if m.relId in relations then Some(Decode(relations[m.relId], m)) else None
      ensures r.Some? ==> Describes(relations[m.relId], m, r.value)
    {
      if m.relId !in relations {
        return None;
      }
      var rel := relations[m.relId];
      DecodeMeaning(rel, m);
      match m
      case InsertMsg(_, t) =>
        var fields := TupleToMap(rel, t);
        return Some(Change(Insert, rel.name, RowId(fields), Some(fields), None));
      case UpdateMsg(_, o, t) =>
        var fields := TupleToMap(rel, t);
        var before := TupleToMap(rel, o);
        var id := RowId(fields);
        if id == "" {
          id := RowId(before);
        }
        return Some(Change(Update, rel.name, id, Some(fields), Some(before)));
      case DeleteMsg(_, o) =>
        var before := TupleToMap(rel, o);
        return Some(Change(Delete, rel.name, RowId(before), None, Some(before)));
    }

    method Dispatch(hash: string -> string, m: Message) returns (ev: Option<Event>)
      modifies this
      ensures relations == Announced(old(relations), m) && ev == EventFor(hash, old(relations), m)
    {
      if m.RelationMsg? {
        relations := relations[m.rel.id := m.rel];
        return None;
      }
      if !IsRowChange(m) {
        return None;
      }
      var change := Handle(m);
      if change.None? || change.value.table != AUDIT_TABLE {
        return None;
      }
      var e := PublishChange(hash, change.value);
      return Some(e);
    }
  }

  /** The decoder's relations are the latest announcements among the first n messages. */
  ghost predicate Knows(relations: map<nat, Relation>, msgs: seq<Message>, n: nat)
    requires n <= |msgs|
  {
    forall id: nat :: Latest(msgs, n, id) == if id in relations then Some(relations[id]) else None
  }

  lemma KnowsNext(relations: map<nat, Relation>, msgs: seq<Message>, n: nat)
    requires n < |msgs| && Knows(relations, msgs, n)
    ensures Knows(Announced(relations, msgs[n]), msgs, n + 1)
  {
  }

  lemma ExpectedNow(hash: string -> string, relations: map<nat, Relation>, msgs: seq<Message>, n: nat)
    requires n < |msgs| && Knows(relations, msgs, n)
    ensures Expected(hash, msgs, n) == EventFor(hash, relations, msgs[n])
  {
  }

  /** Message k announces the relation under which message n is read: no later one before n has its id. */
  ghost predicate Governs(msgs: seq<Message>, k: nat, n: nat)
    requires k < n < |msgs|
  {
    && IsRowChange(msgs[n]) && msgs[k].RelationMsg? && msgs[k].rel.id == msgs[n].relId
    && forall j :: k < j < n && msgs[j].RelationMsg? ==> msgs[j].rel.id != msgs[n].relId
  }

  lemma {:induction false} GovernorIsLatest(msgs: seq<Message>, k: nat, n: nat, i: nat)
    requires k < i <= n < |msgs| && Governs(msgs, k, n)
    ensures Latest(msgs, i, msgs[n].relId) == Some(msgs[k].rel)
  {
    if k < i - 1 {
      GovernorIsLatest(msgs, k, n, i - 1);
    }
  }

  /** The event for message n, if any, reports it under the governing announcement, if that is of the audited table. */
  ghost predicate Faithful(hash: string -> string, msgs: seq<Message>, n: nat, ev: Option<Event>)
    requires n < |msgs|
  {
    && (forall k: nat :: k < n && Governs(msgs, k, n) ==>
          if msgs[k].rel.name == "hanko_audit" then ev.Some? && Reports(hash, msgs[k].rel, msgs[n], ev.value) else ev.None?)
    && ((forall k: nat :: k < n ==> !Governs(msgs, k, n)) ==> ev.None?)
  }

  lemma ExpectedIsFaithful(hash: string -> string, msgs: seq<Message>, n: nat)
    requires n < |msgs|
    ensures Faithful(hash, msgs, n, Expected(hash, msgs, n))
  {
    forall k: nat | k < n && Governs(msgs, k, n)
      ensures Latest(msgs, n, msgs[n].relId) == Some(msgs[k].rel) &&
              Reports(hash, msgs[k].rel, msgs[n], Redacted(hash, Decode(msgs[k].rel, msgs[n])))
    {
      GovernorIsLatest(msgs, k, n, n);
      EventMeaning(hash, msgs[k].rel, msgs[n]);
    }
    if IsRowChange(msgs[n]) && Latest(msgs, n, msgs[n].relId).Some? {
      var id := msgs[n].relId;
      LatestMeaning(msgs, n, id);
      var k :| 0 <= k < n && msgs[k] == RelationMsg(Latest(msgs, n, id).value) && msgs[k].rel.id == id &&
               forall j :: k < j < n && msgs[j].RelationMsg? ==> msgs[j].rel.id != id;
      assert Governs(msgs, k, n);
    }
  }

  /** The whole replication loop: message by message exactly the expected events, which report their messages. */
  method Replicate(hash: string -> string, msgs: seq<Message>) returns (events: seq<Option<Event>>)
    ensures |events| == |msgs|
    ensures forall n :: 0 <= n < |msgs| ==> events[n] == Expected(hash, msgs, n)
    ensures forall n :: 0 <= n < |msgs| ==> Faithful(hash, msgs, n, events[n])
  {
    var dec := new CdcDecoder();
    events := [];
    for n := 0 to |msgs|
      invariant |events| == n && forall i :: 0 <= i < n ==> events[i] == Expected(hash, msgs, i)
      invariant Knows(dec.relations, msgs, n)
    {
      ExpectedNow(hash, dec.relations, msgs, n);
      KnowsNext(dec.relations, msgs, n);
      var e := dec.Dispatch(hash, msgs[n]);
      events := events + [e];
    }
    forall n | 0 <= n < |msgs| ensures Faithful(hash, msgs, n, events[n]) {
      ExpectedIsFaithful(hash, msgs, n);
    }
  }
}
