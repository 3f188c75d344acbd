/**
 Canonical JSON: the bytes that Hanko signs. A `Value` is what Go holds after
 unmarshalling into `any`, with objects as maps; the canonical text lists every
 object's keys in ascending order.
 */
module Canonical {
  import opened Protocol
  import opened Utf8
  import opened Sorting
  import opened Json

  datatype Value =
    | Null
    | Bool(b: bool)
    | Num(n: int)
    | Str(s: string)
    | Arr(items: seq<Value>)
    | Obj(fields: map<string, Value>)

  /** The document that canonicalisation writes. */
  ghost function ToTree(v: Value): Tree
    decreases v, 1
  {
    match v
    case Null => TNull
    case Bool(b) => TBool(b)
    case Num(n) => TNum(n)
    case Str(s) => TStr(s)
    case Arr(items) => TArr(ToTrees(items))
    case Obj(fields) => TObj(MembersOf(v, SortedKeys(fields.Keys)))
  }

  ghost function ToTrees(items: seq<Value>): (ts: seq<Tree>)
    ensures |ts| == |items|
    decreases items, 0
  {
    if items == [] then [] else [ToTree(items[0])] + ToTrees(items[1..])
  }

  ghost function MembersOf(v: Value, keys: seq<string>): (ms: seq<Member>)
    requires v.Obj? && Elements(keys) <= v.fields.Keys
    ensures |ms| == |keys|
    decreases v, 0, |keys|
  {
    if keys == [] then []
    else
      assert keys[0] in Elements(keys) && forall k :: k in keys[1..] ==> k in Elements(keys);
      [Member(keys[0], ToTree(v.fields[keys[0]]))] + MembersOf(v, keys[1..])
  }

  /** The value a document stands for; of several members with one key the last counts. */
  function Denote(t: Tree): Value
    decreases t, 1
  {
    match t
    case TNull => Null
    case TBool(b) => Bool(b)
    case TNum(n) => Num(n)
    case TStr(s) => Str(s)
    case TArr(items) => Arr(DenoteItems(items))
    case TObj(members) => Obj(DenoteMembers(members))
  }

  function DenoteItems(items: seq<Tree>): seq<Value>
    decreases items, 0
  {
    if items == [] then [] else [Denote(items[0])] + DenoteItems(items[1..])
  }

  function DenoteMembers(members: seq<Member>): map<string, Value>
    decreases members, 0
  {
    if members == [] then map[]
    else map[members[0].key := Denote(members[0].value)] + DenoteMembers(members[1..])
  }

  /** Every object of the document, at any depth, lists its keys strictly ascending by code points. */
  ghost predicate Canonical(t: Tree)
    decreases t
  {
    match t
    case TArr(items) => forall i :: 0 <= i < |items| ==> Canonical(items[i])
    case TObj(members) =>
      && (forall i, j :: 0 <= i < j < |members| ==> CodePointLess(members[i].key, members[j].key))
      && forall i :: 0 <= i < |members| ==> Canonical(members[i].value)
    case _ => true
  }

  lemma {:induction false} MembersAt(v: Value, keys: seq<string>, i: nat)
    requires v.Obj? && Elements(keys) <= v.fields.Keys && i < |keys|
    ensures keys[i] in v.fields && MembersOf(v, keys)[i] == Member(keys[i], ToTree(v.fields[keys[i]]))
    decreases |keys|
  {
    assert keys[i] in Elements(keys);
    if i > 0 {
      assert forall k :: k in keys[1..] ==> k in Elements(keys);
      MembersAt(v, keys[1..], i - 1);
    }
  }

  lemma {:induction false} ItemsAt(items: seq<Value>, i: nat)
    requires i < |items|
    ensures ToTrees(items)[i] == ToTree(items[i])
  {
    if i > 0 {
      ItemsAt(items[1..], i - 1);
    }
  }

  lemma {:induction false} ToTreeIsCanonical(v: Value)
    ensures Canonical(ToTree(v))
    decreases v
  {
    match v
    case Arr(items) =>
      forall i | 0 <= i < |items| ensures Canonical(ToTrees(items)[i]) {
        ItemsAt(items, i);
        ToTreeIsCanonical(items[i]);
      }
    case Obj(fields) =>
      var keys := SortedKeys(fields.Keys);
      var members := MembersOf(v, keys);
      forall i | 0 <= i < |members| ensures members[i].key == keys[i] && Canonical(members[i].value) {
        MembersAt(v, keys, i);
        ToTreeIsCanonical(fields[keys[i]]);
      }
    case _ =>
  }

  lemma AllKeys(fields: map<string, Value>, keys: seq<string>)
    requires Elements(keys) == fields.Keys
    ensures (map k | k in fields && k in Elements(keys) :: fields[k]) == fields
  {
  }

  lemma DenoteNext(t: Tree, ts: seq<Tree>)
    ensures DenoteItems([t] + ts) == [Denote(t)] + DenoteItems(ts)
  {
    assert ([t] + ts)[1..] == ts;
  }

  lemma {:induction false} DenoteToTree(v: Value)
    ensures Denote(ToTree(v)) == v
    decreases v, 1
  {
    match v
    case Arr(items) =>
      DenoteToTrees(items);
    case Obj(fields) =>
      var keys := SortedKeys(fields.Keys);
      DenoteMembersOf(v, keys);
      AllKeys(fields, keys);
    case _ =>
  }

  lemma {:induction false} DenoteToTrees(items: seq<Value>)
    ensures DenoteItems(ToTrees(items)) == items
    decreases items, 0
  {
    if items != [] {
      DenoteToTree(items[0]);
      DenoteToTrees(items[1..]);
      DenoteNext(ToTree(items[0]), ToTrees(items[1..]));
      assert items == [items[0]] + items[1..];
    }
  }

  lemma {:induction false} DenoteMembersOf(v: Value, keys: seq<string>)
    requires v.Obj? && Elements(keys) <= v.fields.Keys
    ensures DenoteMembers(MembersOf(v, keys)) == map k | k in v.fields && k in Elements(keys) :: v.fields[k]
    decreases v, 0, |keys|
  {
    if keys != [] {
      var k := keys[0];
      ElementsConcat([k], keys[1..]);
      assert keys == [k] + keys[1..];
      assert k in Elements(keys);
      DenoteToTree(v.fields[k]);
      DenoteMembersOf(v, keys[1..]);
      assert MembersOf(v, keys)[1..] == MembersOf(v, keys[1..]);
    }
  }

  // ----- Bytes -----

  ghost function CanonicalText(v: Value): string {
    Print(ToTree(v))
  }

  ghost function CanonicalBytes(v: Value): Bytes {
    Encode(CanonicalText(v))
  }

  /** Reading JSON bytes: decode, parse, forget the order of members. */
  function Read(b: Bytes): Option<Value> {
    match Decode(b)
    case None => None
    case Some(s) =>
      match Parse(s)
      case None => None
      case Some(t) => Some(Denote(t))
  }

  /** The canonical bytes are JSON for the value, with the keys of every object, at any depth, strictly ascending. */
  lemma CanonicalRoundTrip(v: Value)
    ensures Read(CanonicalBytes(v)) == Some(v)
    ensures Decode(CanonicalBytes(v)).Some? && Parse(Decode(CanonicalBytes(v)).value).Some?
    ensures Canonical(Parse(Decode(CanonicalBytes(v)).value).value)
  {
    DecodeEncode(CanonicalText(v));
    ParsePrint(ToTree(v));
    DenoteToTree(v);
    ToTreeIsCanonical(v);
  }

  /** Equal bytes, equal values. */
  lemma CanonicalInjective(v: Value, w: Value)
    requires CanonicalBytes(v) == CanonicalBytes(w)
    ensures v == w
  {
    CanonicalRoundTrip(v);
    CanonicalRoundTrip(w);
  }

  /** There is only one canonical document for a value: ascending order leaves no choice. */
  lemma {:induction false} CanonicalTreeUnique(t: Tree)
    requires Canonical(t)
    ensures t == ToTree(Denote(t))
    decreases t, 1
  {
    match t
    case TArr(items) =>
      CanonicalTreesUnique(items);
    case TObj(members) =>
      CanonicalMembersUnique(members);
    case _ =>
  }

  lemma ToTreesNext(v: Value, vs: seq<Value>)
    ensures ToTrees([v] + vs) == [ToTree(v)] + ToTrees(vs)
  {
    assert ([v] + vs)[1..] == vs;
  }

  lemma {:induction false} CanonicalTreesUnique(items: seq<Tree>)
    requires forall i :: 0 <= i < |items| ==> Canonical(items[i])
    ensures items == ToTrees(DenoteItems(items))
    decreases items, 0
  {
    if items != [] {
      CanonicalTreeUnique(items[0]);
      CanonicalTreesUnique(items[1..]);
      ToTreesNext(Denote(items[0]), DenoteItems(items[1..]));
      assert items == [items[0]] + items[1..];
    }
  }

  ghost function KeysOf(members: seq<Member>): (ks: seq<string>) {
    seq(|members|, i requires 0 <= i < |members| => members[i].key)
  }

  lemma {:induction false} DenotedKeys(members: seq<Member>)
    ensures DenoteMembers(members).Keys == Elements(KeysOf(members))
  {
    if members != [] {
      var ks := KeysOf(members);
      assert KeysOf(members[1..]) == ks[1..];
      DenotedKeys(members[1..]);
      ElementsConcat([ks[0]], ks[1..]);
      assert ks == [ks[0]] + ks[1..];
    }
  }

  lemma {:induction false} DenotedAt(members: seq<Member>, i: nat)
    requires i < |members| && forall j :: i < j < |members| ==> members[j].key != members[i].key
    ensures members[i].key in DenoteMembers(members)
    ensures DenoteMembers(members)[members[i].key] == Denote(members[i].value)
  {
    var tail := members[1..];
    if i > 0 {
      DenotedAt(tail, i - 1);
    } else {
      DenotedKeys(tail);
      forall j | 0 <= j < |tail| ensures KeysOf(tail)[j] != members[0].key {
        assert tail[j] == members[j + 1];
      }
    }
  }

  lemma CanonicalKeys(members: seq<Member>)
    requires Canonical(TObj(members))
    ensures Ascending(KeysOf(members)) && KeysOf(members) == SortedKeys(DenoteMembers(members).Keys)
  {
    DenotedKeys(members);
    AscendingUnique(KeysOf(members), SortedKeys(DenoteMembers(members).Keys));
  }

  lemma CanonicalMemberHolds(members: seq<Member>, i: nat)
    requires Canonical(TObj(members)) && i < |members|
    ensures members[i].key in DenoteMembers(members)
    ensures DenoteMembers(members)[members[i].key] == Denote(members[i].value)
  {
    forall j | i < j < |members| ensures members[j].key != members[i].key {
      CodePointIrreflexive(members[i].key);
    }
    DenotedAt(members, i);
  }

  lemma MembersBack(v: Value, ks: seq<string>, members: seq<Member>, i: nat)
    requires v.Obj? && Elements(ks) <= v.fields.Keys && i < |ks| == |members| && ks[i] == members[i].key
    requires ks[i] in v.fields && v.fields[ks[i]] == Denote(members[i].value)
    requires ToTree(Denote(members[i].value)) == members[i].value
    ensures MembersOf(v, ks)[i] == members[i]
  {
    MembersAt(v, ks, i);
  }

  lemma SameMembers(ms: seq<Member>, members: seq<Member>)
    requires |ms| == |members| && forall i :: 0 <= i < |members| ==> ms[i] == members[i]
    ensures ms == members
  {
  }

  lemma {:induction false} CanonicalMemberUnique(v: Value, ks: seq<string>, members: seq<Member>, i: nat)
    requires Canonical(TObj(members)) && v == Obj(DenoteMembers(members)) && ks == KeysOf(members) && i < |members|
    requires Elements(ks) <= v.fields.Keys
    ensures MembersOf(v, ks)[i] == members[i]
    decreases members, 0, 0
  {
    CanonicalMemberHolds(members, i);
    CanonicalTreeUnique(members[i].value);
    MembersBack(v, ks, members, i);
  }

  lemma ObjectTree(v: Value, ks: seq<string>)
    requires v.Obj? && ks == SortedKeys(v.fields.Keys)
    ensures Elements(ks) <= v.fields.Keys && ToTree(v) == TObj(MembersOf(v, ks))
  {
  }

  lemma {:induction false} MembersUnique(v: Value, ks: seq<string>, members: seq<Member>)
    requires Canonical(TObj(members)) && v == Obj(DenoteMembers(members)) && ks == KeysOf(members)
    requires Elements(ks) <= v.fields.Keys
    ensures MembersOf(v, ks) == members
    decreases members, 0, 1
  {
    var ms := MembersOf(v, ks);
    forall i | 0 <= i < |members| ensures ms[i] == members[i] {
      CanonicalMemberUnique(v, ks, members, i);
    }
    SameMembers(ms, members);
  }

  lemma {:induction false} CanonicalMembersUnique(members: seq<Member>)
    requires Canonical(TObj(members))
    ensures TObj(members) == ToTree(Obj(DenoteMembers(members)))
    decreases members, 0
  {
    var v := Obj(DenoteMembers(members));
    var ks := KeysOf(members);
    CanonicalKeys(members);
    ObjectTree(v, ks);
    MembersUnique(v, ks, members);
  }

  /** Any canonical document, whoever wrote it, is reproduced byte for byte by reading and canonicalising. */
  lemma CanonicalisationIsIdempotent(t: Tree)
    requires Canonical(t)
    ensures Read(Encode(Print(t))).Some?
    ensures CanonicalBytes(Read(Encode(Print(t))).value) == Encode(Print(t))
  {
    DecodeEncode(Print(t));
    ParsePrint(t);
    CanonicalTreeUnique(t);
  }
}
