/** The marshaller that writes canonical bytes into a growing buffer, proved to produce CanonicalBytes. */
module Marshal {
  import opened Protocol
  import opened Utf8
  import opened Sorting
  import opened Json
  import opened Canonical

  lemma Regroup(first: string, more: string, comma: string, last: string)
    ensures first + "," + (more + comma + last) == first + "," + more + comma + last
  {
  }

  lemma {:induction false} PrintMembersSnoc(ms: seq<Member>, m: Member)
    ensures PrintMembers(ms + [m]) == PrintMembers(ms) + (if ms == [] then "" else ",") + PrintMember(m)
  {
    if ms == [] {
      assert ms + [m] == [m];
    } else {
      assert (ms + [m])[1..] == ms[1..] + [m];
      PrintMembersSnoc(ms[1..], m);
      Regroup(PrintMember(ms[0]), PrintMembers(ms[1..]), ",", PrintMember(m));
    }
  }

  lemma {:induction false} PrintItemsSnoc(ts: seq<Tree>, t: Tree)
    ensures PrintItems(ts + [t]) == PrintItems(ts) + (if ts == [] then "" else ",") + Print(t)
  {
    if ts == [] {
      assert ts + [t] == [t];
    } else {
      assert (ts + [t])[1..] == ts[1..] + [t];
      PrintItemsSnoc(ts[1..], t);
      Regroup(Print(ts[0]), PrintItems(ts[1..]), ",", Print(t));
    }
  }

  /** The text so far, in its UTF-8 bytes. */
  ghost predicate Holds(buf: Bytes, text: string) {
    buf == Encode(text)
  }

  method Append(buf: Bytes, piece: Bytes, ghost text: string, ghost more: string) returns (out: Bytes)
    requires Holds(buf, text) && Holds(piece, more)
    ensures Holds(out, text + more)
  {
    EncodeConcat(text, more);
    out := buf + piece;
  }

  lemma EncodeThree(a: string, b: string, c: string)
    ensures Encode(a + b + c) == Encode(a) + Encode(b) + Encode(c)
  {
    EncodeConcat(a, b);
    EncodeConcat(a + b, c);
  }

  method MarshalMember(key: string, value: Value) returns (out: Bytes)
    ensures Holds(out, PrintMember(Member(key, ToTree(value))))
    decreases value, 2
  {
    EncodeThree(PrintString(key), ":", Print(ToTree(value)));
    var vb := MarshalCanonical(value);
    out := Encode(PrintString(key)) + Encode(":") + vb;
  }

  /** An object's text up to member i, without the comma that follows. */
  ghost function Opened(ms: seq<Member>, i: nat): string
    requires i <= |ms|
  {
    "{" + PrintMembers(ms[..i])
  }

  lemma OpenedNext(ms: seq<Member>, i: nat)
    requires i < |ms|
    ensures Opened(ms, i + 1) == Opened(ms, i) + (if i == 0 then "" else ",") + PrintMember(ms[i])
  {
    assert ms[..i + 1] == ms[..i] + [ms[i]];
    PrintMembersSnoc(ms[..i], ms[i]);
  }

  method Comma(i: nat, buf: Bytes, ghost text: string) returns (out: Bytes)
    requires Holds(buf, text)
    ensures Holds(out, text + if i == 0 then "" else ",")
  {
    if i == 0 {
      assert text + "" == text;
      out := buf;
    } else {
      out := Append(buf, Encode(","), text, ",");
    }
  }

  /** One turn of the loop over the sorted keys. */
  method AppendMember(v: Value, keys: seq<string>, i: nat, buf: Bytes) returns (out: Bytes)
    requires v.Obj? && Elements(keys) <= v.fields.Keys && i < |keys|
    requires Holds(buf, Opened(MembersOf(v, keys), i))
    ensures Holds(out, Opened(MembersOf(v, keys), i + 1))
    decreases v, 0, 0
  {
    ghost var ms := MembersOf(v, keys);
    MembersAt(v, keys, i);
    OpenedNext(ms, i);
    out := Comma(i, buf, Opened(ms, i));
    var piece := MarshalMember(keys[i], v.fields[keys[i]]);
    out := Append(out, piece, Opened(ms, i) + (if i == 0 then "" else ","), PrintMember(ms[i]));
  }

  lemma Closed(ms: seq<Member>)
    ensures Opened(ms, 0) == "{" && Opened(ms, |ms|) + "}" == Print(TObj(ms))
  {
    assert ms[..|ms|] == ms;
  }

  method MarshalObject(v: Value) returns (buf: Bytes)
    requires v.Obj?
    ensures buf == CanonicalBytes(v)
    decreases v, 0
  {
    var keys := CollectSorted(v.fields.Keys);
    ghost var ms := MembersOf(v, keys);
    Closed(ms);
    buf := Encode("{");
    for i := 0 to |keys|
      invariant Holds(buf, Opened(ms, i))
    {
      buf := AppendMember(v, keys, i, buf);
    }
    buf := Append(buf, Encode("}"), Opened(ms, |keys|), "}");
  }

  ghost function OpenedItems(ts: seq<Tree>, i: nat): string
    requires i <= |ts|
  {
    "[" + PrintItems(ts[..i])
  }

  lemma OpenedItemsNext(ts: seq<Tree>, i: nat)
    requires i < |ts|
    ensures OpenedItems(ts, i + 1) == OpenedItems(ts, i) + (if i == 0 then "" else ",") + Print(ts[i])
  {
    assert ts[..i + 1] == ts[..i] + [ts[i]];
    PrintItemsSnoc(ts[..i], ts[i]);
  }

  method MarshalArray(v: Value) returns (buf: Bytes)
    requires v.Arr?
    ensures buf == CanonicalBytes(v)
    decreases v, 0
  {
    ghost var ts := ToTrees(v.items);
    buf := Encode("[");
    assert OpenedItems(ts, 0) == "[";
    for i := 0 to |v.items|
      invariant Holds(buf, OpenedItems(ts, i))
    {
      ItemsAt(v.items, i);
      OpenedItemsNext(ts, i);
      ghost var text := OpenedItems(ts, i);
      buf := Comma(i, buf, text);
      var ib := MarshalCanonical(v.items[i]);
      buf := Append(buf, ib, text + (if i == 0 then "" else ","), Print(ts[i]));
    }
    assert ts[..|v.items|] == ts;
    buf := Append(buf, Encode("]"), OpenedItems(ts, |v.items|), "]");
  }

  /** Whatever order the maps are iterated in, at any depth, the bytes are those of the value. */
  method MarshalCanonical(v: Value) returns (buf: Bytes)
    ensures buf == CanonicalBytes(v)
    decreases v, 1
  {
    match v {
      case Obj(_) => buf := MarshalObject(v);
      case Arr(_) => buf := MarshalArray(v);
      case Null => buf := Encode(Print(TNull));
      case Bool(b) => buf := Encode(Print(TBool(b)));
      case Num(n) => buf := Encode(Print(TNum(n)));
      case Str(s) => buf := Encode(Print(TStr(s)));
    }
  }

  /** Normalising a value through JSON first changes nothing, and can never fail. */
  method CanonicalJson(v: Value) returns (r: Option<Bytes>)
    ensures r == Some(CanonicalBytes(v))
  {
    // json.Marshal also sorts the keys of a map and escapes strings in the same way
    var raw := MarshalCanonical(v);
    CanonicalRoundTrip(v);
    match Read(raw)
    case None => r := None;
    case Some(w) =>
      var buf := MarshalCanonical(w);
      r := Some(buf);
  }
}
