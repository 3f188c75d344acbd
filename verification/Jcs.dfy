/**
 The JSON Canonicalization Scheme, RFC 8785, and exactly when Hanko's canonical
 text is the one that it prescribes. Both write integers that a double holds as
 plain digits; no other numbers are in the model.
 */
module Jcs {
  import opened Text
  import opened Utf8
  import opened Utf16
  import opened Sorting
  import opened Json
  import opened Canonical

  // ----- The text of RFC 8785 -----

  /** Section 3.2.2.2: only control characters, the quote and the backslash are escaped. */
  function JcsEscape(c: char): string {
    if ShortEscape(c).Some? then [BACKSLASH, ShortEscape(c).value]
    else if c as int < 0x20 then UnicodeEscape(c)
    else [c]
  }

  function JcsEscapeAll(s: string): string {
    if s == "" then "" else JcsEscape(s[0]) + JcsEscapeAll(s[1..])
  }

  function JcsString(s: string): string {
    [QUOTE] + JcsEscapeAll(s) + [QUOTE]
  }

  function JcsPrint(t: Tree): string
    decreases t, 1
  {
    match t
    case TNull => "null"
    case TBool(b) => if b then "true" else "false"
    case TNum(n) => IntText(n)
    case TStr(s) => JcsString(s)
    case TArr(items) => "[" + JcsItems(items) + "]"
    case TObj(members) => "{" + JcsMembers(members) + "}"
  }

  function JcsItems(items: seq<Tree>): string
    decreases items, 0
  {
    if items == [] then ""
    else if |items| == 1 then JcsPrint(items[0])
    else JcsPrint(items[0]) + "," + JcsItems(items[1..])
  }

  function JcsMember(m: Member): string
    decreases m, 2
  {
    JcsString(m.key) + ":" + JcsPrint(m.value)
  }

  function JcsMembers(members: seq<Member>): string
    decreases members, 0
  {
    if members == [] then ""
    else if |members| == 1 then JcsMember(members[0])
    else JcsMember(members[0]) + "," + JcsMembers(members[1..])
  }

  // ----- Sorting by an order -----

  ghost predicate StrictOrder(less: (string, string) -> bool) {
    && (forall s :: !less(s, s))
    && (forall s, t, u :: less(s, t) && less(t, u) ==> less(s, u))
    && (forall s, t :: less(s, t) || s == t || less(t, s))
  }

  ghost predicate AscendingBy(less: (string, string) -> bool, ks: seq<string>) {
    forall i, j :: 0 <= i < j < |ks| ==> less(ks[i], ks[j])
  }

  ghost predicate IsLeast(less: (string, string) -> bool, keys: set<string>, m: string) {
    m in keys && forall k :: k in keys && k != m ==> less(m, k)
  }

  lemma {:induction false} LeastExists(less: (string, string) -> bool, keys: set<string>)
    requires StrictOrder(less) && keys != {}
    ensures exists m :: IsLeast(less, keys, m)
    decreases keys
  {
    var k :| k in keys;
    var rest := keys - {k};
    if rest == {} {
      assert keys == {k};
      assert IsLeast(less, keys, k);
    } else {
      LeastExists(less, rest);
      var m :| IsLeast(less, rest, m);
      if less(k, m) {
        forall x | x in keys && x != k ensures less(k, x) {
          assert x in rest;
          assert x != m ==> less(m, x);
        }
        assert IsLeast(less, keys, k);
      } else {
        assert less(m, k);
        assert IsLeast(less, keys, m);
      }
    }
  }

  lemma LeastFirst(less: (string, string) -> bool, m: string, ks: seq<string>)
    requires AscendingBy(less, ks) && forall k :: k in ks ==> less(m, k)
    ensures AscendingBy(less, [m] + ks) && Elements([m] + ks) == Elements(ks) + {m}
  {
    ElementsConcat([m], ks);
  }

  ghost function SortBy(less: (string, string) -> bool, keys: set<string>): (ks: seq<string>)
    requires StrictOrder(less)
    ensures AscendingBy(less, ks) && Elements(ks) == keys
    decreases keys
  {
    if keys == {} then []
    else
      LeastExists(less, keys);
      var m :| IsLeast(less, keys, m);
      var rest := SortBy(less, keys - {m});
      assert forall k :: k in rest ==> k in Elements(rest);
      LeastFirst(less, m, rest);
      [m] + rest
  }

  lemma HeadIsLeast(less: (string, string) -> bool, ks: seq<string>)
    requires StrictOrder(less) && AscendingBy(less, ks) && ks != []
    ensures IsLeast(less, Elements(ks), ks[0]) && Elements(ks[1..]) == Elements(ks) - {ks[0]}
    ensures AscendingBy(less, ks[1..])
  {
    assert ks[0] in Elements(ks);
    assert ks[0] !in ks[1..];
    assert ks == [ks[0]] + ks[1..];
    ElementsConcat([ks[0]], ks[1..]);
  }

  /** A set has only one listing in a strict order. */
  lemma {:induction false} SortedOnce(less: (string, string) -> bool, a: seq<string>, b: seq<string>)
    requires StrictOrder(less) && AscendingBy(less, a) && AscendingBy(less, b) && Elements(a) == Elements(b)
    ensures a == b
  {
    NoElements(a);
    NoElements(b);
    if a != [] {
      HeadIsLeast(less, a);
      HeadIsLeast(less, b);
      assert a[0] == b[0];
      SortedOnce(less, a[1..], b[1..]);
      assert a == [a[0]] + a[1..] && b == [b[0]] + b[1..];
    }
  }

  lemma Utf16IsStrict()
    ensures StrictOrder(Utf16Less)
  {
    forall s ensures !Utf16Less(s, s) {
      Utf16Irreflexive(s);
    }
    forall s, t, u | Utf16Less(s, t) && Utf16Less(t, u) ensures Utf16Less(s, u) {
      UnitsLessTransitive(Encode16(s), Encode16(t), Encode16(u));
    }
    forall s, t ensures Utf16Less(s, t) || s == t || Utf16Less(t, s) {
      Utf16Trichotomy(s, t);
    }
  }

  /** The keys of an object in the order of section 3.2.3. */
  ghost function JcsKeys(keys: set<string>): seq<string> {
    Utf16IsStrict();
    SortBy(Utf16Less, keys)
  }

  // ----- A value laid out in any order -----

  /** The order lists every set of keys. */
  ghost predicate Lists(order: set<string> -> seq<string>) {
    forall keys :: Distinct(order(keys)) && Elements(order(keys)) == keys
  }

  ghost function Layout(order: set<string> -> seq<string>, v: Value): Tree
    requires Lists(order)
    decreases v, 1
  {
    match v
    case Null => TNull
    case Bool(b) => TBool(b)
    case Num(n) => TNum(n)
    case Str(s) => TStr(s)
    case Arr(items) => TArr(LayoutItems(order, items))
    case Obj(fields) => TObj(LayoutMembers(order, v, order(fields.Keys)))
  }

  ghost function LayoutItems(order: set<string> -> seq<string>, items: seq<Value>): (ts: seq<Tree>)
    requires Lists(order)
    ensures |ts| == |items|
    decreases items, 0
  {
    if items == [] then [] else [Layout(order, items[0])] + LayoutItems(order, items[1..])
  }

  ghost function LayoutMembers(order: set<string> -> seq<string>, v: Value, keys: seq<string>): (ms: seq<Member>)
    requires Lists(order) && v.Obj? && Elements(keys) <= v.fields.Keys
    ensures |ms| == |keys|
    decreases v, 0, |keys|
  {
    if keys == [] then []
    else
      TailElements(keys);
      [Member(keys[0], Layout(order, v.fields[keys[0]]))] + LayoutMembers(order, v, keys[1..])
  }

  lemma TailElements(keys: seq<string>)
    requires keys != []
    ensures keys[0] in Elements(keys) && Elements(keys[1..]) <= Elements(keys)
  {
    assert forall k :: k in keys[1..] ==> k in keys;
  }

  lemma {:induction false} LayoutItemAt(order: set<string> -> seq<string>, items: seq<Value>, i: nat)
    requires Lists(order) && i < |items|
    ensures LayoutItems(order, items)[i] == Layout(order, items[i])
  {
    if i > 0 {
      LayoutItemAt(order, items[1..], i - 1);
    }
  }

  lemma {:induction false} LayoutMemberAt(order: set<string> -> seq<string>, v: Value, keys: seq<string>, i: nat)
    requires Lists(order) && v.Obj? && Elements(keys) <= v.fields.Keys && i < |keys|
    ensures keys[i] in v.fields
    ensures LayoutMembers(order, v, keys)[i] == Member(keys[i], Layout(order, v.fields[keys[i]]))
    decreases |keys|
  {
    assert keys[i] in Elements(keys);
    if i > 0 {
      TailElements(keys);
      LayoutMemberAt(order, v, keys[1..], i - 1);
    }
  }

  // ----- Escaping -----

  /** What encoding/json escapes beyond RFC 8785. */
  predicate Html(c: char) {
    c in "<>&" || c as int == 0x2028 || c as int == 0x2029
  }

  predicate PlainText(s: string) {
    forall i :: 0 <= i < |s| ==> !Html(s[i])
  }

  lemma EscapeCost(c: char)
    ensures Html(c) ==> |JcsEscape(c)| < |Escape(c)|
    ensures !Html(c) ==> JcsEscape(c) == Escape(c)
  {
  }

  lemma PlainNext(s: string)
    requires s != ""
    ensures PlainText(s) <==> !Html(s[0]) && PlainText(s[1..])
  {
    assert s == [s[0]] + s[1..];
  }

  /** The two ways to write a thing: never longer as RFC 8785 has it, equally long exactly if plain, and then the same. */
  ghost predicate Compares(jcs: string, text: string, plain: bool) {
    |jcs| <= |text| && (|jcs| == |text| <==> plain) && (plain ==> jcs == text)
  }

  lemma ComparesConcat(a: string, b: string, p: bool, c: string, d: string, q: bool)
    requires Compares(a, b, p) && Compares(c, d, q)
    ensures Compares(a + c, b + d, p && q)
  {
  }

  lemma {:induction false} EscapeCompares(s: string)
    ensures Compares(JcsEscapeAll(s), EscapeAll(s), PlainText(s))
  {
    if s != "" {
      EscapeCost(s[0]);
      EscapeCompares(s[1..]);
      PlainNext(s);
      ComparesConcat(JcsEscape(s[0]), Escape(s[0]), !Html(s[0]), JcsEscapeAll(s[1..]), EscapeAll(s[1..]), PlainText(s[1..]));
    }
  }

  lemma StringCompares(s: string)
    ensures Compares(JcsString(s), PrintString(s), PlainText(s))
  {
    EscapeCompares(s);
  }

  ghost predicate PlainTree(t: Tree)
    decreases t
  {
    match t
    case TStr(s) => PlainText(s)
    case TArr(items) => forall i :: 0 <= i < |items| ==> PlainTree(items[i])
    case TObj(members) => forall i :: 0 <= i < |members| ==> PlainText(members[i].key) && PlainTree(members[i].value)
    case _ => true
  }

  ghost predicate PlainItems(items: seq<Tree>) {
    forall i :: 0 <= i < |items| ==> PlainTree(items[i])
  }

  ghost predicate PlainMember(m: Member) {
    PlainText(m.key) && PlainTree(m.value)
  }

  ghost predicate PlainMembers(members: seq<Member>) {
    forall i :: 0 <= i < |members| ==> PlainMember(members[i])
  }

  lemma PlainItemsNext(items: seq<Tree>)
    requires items != []
    ensures PlainItems(items) <==> PlainTree(items[0]) && PlainItems(items[1..])
  {
    assert items == [items[0]] + items[1..];
  }

  lemma PlainMembersNext(members: seq<Member>)
    requires members != []
    ensures PlainMembers(members) <==> PlainMember(members[0]) && PlainMembers(members[1..])
  {
    assert members == [members[0]] + members[1..];
  }

  lemma ComparesEnclosed(open: string, close: string, a: string, b: string, p: bool)
    requires Compares(a, b, p)
    ensures Compares(open + a + close, open + b + close, p)
  {
  }

  lemma ComparesListed(a: string, b: string, p: bool, c: string, d: string, q: bool, sep: string)
    requires Compares(a, b, p) && Compares(c, d, q)
    ensures Compares(a + sep + c, b + sep + d, p && q)
  {
  }

  lemma {:induction false} PrintCompares(t: Tree)
    ensures Compares(JcsPrint(t), Print(t), PlainTree(t))
    decreases t, 1
  {
    match t
    case TStr(s) => StringCompares(s);
    case TArr(items) =>
      ItemsCompare(items);
      ComparesEnclosed("[", "]", JcsItems(items), PrintItems(items), PlainItems(items));
    case TObj(members) =>
      MembersCompare(members);
      ComparesEnclosed("{", "}", JcsMembers(members), PrintMembers(members), PlainMembers(members));
      assert PlainMembers(members) <==> PlainTree(t);
    case _ =>
  }

  lemma {:induction false} ItemsCompare(items: seq<Tree>)
    ensures Compares(JcsItems(items), PrintItems(items), PlainItems(items))
    decreases items, 0
  {
    if items != [] {
      PrintCompares(items[0]);
      PlainItemsNext(items);
      if |items| > 1 {
        ItemsCompare(items[1..]);
        ComparesListed(JcsPrint(items[0]), Print(items[0]), PlainTree(items[0]),
                       JcsItems(items[1..]), PrintItems(items[1..]), PlainItems(items[1..]), ",");
      }
    }
  }

  lemma {:induction false} MemberCompares(m: Member)
    ensures Compares(JcsMember(m), PrintMember(m), PlainMember(m))
    decreases m, 2
  {
    StringCompares(m.key);
    PrintCompares(m.value);
    ComparesListed(JcsString(m.key), PrintString(m.key), PlainText(m.key),
                   JcsPrint(m.value), Print(m.value), PlainTree(m.value), ":");
  }

  lemma {:induction false} MembersCompare(members: seq<Member>)
    ensures Compares(JcsMembers(members), PrintMembers(members), PlainMembers(members))
    decreases members, 0
  {
    if members != [] {
      MemberCompares(members[0]);
      PlainMembersNext(members);
      if |members| > 1 {
        MembersCompare(members[1..]);
        ComparesListed(JcsMember(members[0]), PrintMember(members[0]), PlainMember(members[0]),
                       JcsMembers(members[1..]), PrintMembers(members[1..]), PlainMembers(members[1..]), ",");
      }
    }
  }

  // ----- The length does not depend on the order -----

  function Sum(size: string -> nat, keys: seq<string>): nat {
    if keys == [] then 0 else size(keys[0]) + Sum(size, keys[1..])
  }

  lemma {:induction false} SumConcat(size: string -> nat, a: seq<string>, b: seq<string>)
    ensures Sum(size, a + b) == Sum(size, a) + Sum(size, b)
  {
    if a == [] {
      assert a + b == b;
    } else {
      SumConcat(size, a[1..], b);
      assert (a + b)[1..] == a[1..] + b;
    }
  }

  /** Taking one key out. */
  lemma SumWithout(size: string -> nat, ks: seq<string>, j: nat)
    requires j < |ks| && Distinct(ks)
    ensures var rest := ks[..j] + ks[j + 1..];
            && Sum(size, ks) == size(ks[j]) + Sum(size, rest)
            && Distinct(rest) && Elements(rest) == Elements(ks) - {ks[j]}
  {
    var front, back := ks[..j], ks[j + 1..];
    assert ks == front + ([ks[j]] + back);
    SumConcat(size, front, [ks[j]] + back);
    SumConcat(size, [ks[j]], back);
    SumConcat(size, front, back);
    assert Sum(size, [ks[j]]) == size(ks[j]) + Sum(size, []);
    WithoutElement(ks, j);
  }

  lemma WithoutElement(ks: seq<string>, j: nat)
    requires j < |ks| && Distinct(ks)
    ensures var rest := ks[..j] + ks[j + 1..]; Distinct(rest) && Elements(rest) == Elements(ks) - {ks[j]}
  {
    var rest := ks[..j] + ks[j + 1..];
    forall x ensures x in rest <==> x in ks && x != ks[j] {
      if x in ks && x != ks[j] {
        var i :| 0 <= i < |ks| && ks[i] == x;
        assert rest[if i < j then i else i - 1] == x;
      }
      if x in rest {
        var i :| 0 <= i < |rest| && rest[i] == x;
        assert rest[i] == ks[if i < j then i else i + 1];
      }
    }
  }

  lemma {:induction false} SumOfElements(size: string -> nat, ks: seq<string>, ls: seq<string>)
    requires Distinct(ks) && Distinct(ls) && Elements(ks) == Elements(ls)
    ensures Sum(size, ks) == Sum(size, ls) && |ks| == |ls|
  {
    NoElements(ks);
    NoElements(ls);
    if ks != [] {
      assert ks[0] in Elements(ls);
      var j :| 0 <= j < |ls| && ls[j] == ks[0];
      SumWithout(size, ls, j);
      WithoutElement(ks, 0);
      assert ks[..0] + ks[1..] == ks[1..];
      SumOfElements(size, ks[1..], ls[..j] + ls[j + 1..]);
    }
  }

  lemma {:induction false} MembersLength(order: set<string> -> seq<string>, v: Value, keys: seq<string>, size: string -> nat)
    requires Lists(order) && v.Obj? && Elements(keys) <= v.fields.Keys
    requires forall k :: k in v.fields ==> size(k) == |JcsMember(Member(k, Layout(order, v.fields[k])))|
    ensures |JcsMembers(LayoutMembers(order, v, keys))| == Sum(size, keys) + if keys == [] then 0 else |keys| - 1
    decreases |keys|
  {
    if keys != [] {
      TailElements(keys);
      var head, tail := Member(keys[0], Layout(order, v.fields[keys[0]])), LayoutMembers(order, v, keys[1..]);
      MembersLength(order, v, keys[1..], size);
      assert ([head] + tail)[1..] == tail;
    }
  }

  lemma MemberLength(k: string, t: Tree, u: Tree)
    requires |JcsPrint(t)| == |JcsPrint(u)|
    ensures |JcsMember(Member(k, t))| == |JcsMember(Member(k, u))|
  {
  }

  lemma SameMembersLength(p: set<string> -> seq<string>, q: set<string> -> seq<string>, v: Value)
    requires Lists(p) && Lists(q) && v.Obj?
    requires forall k :: k in v.fields ==> |JcsPrint(Layout(p, v.fields[k]))| == |JcsPrint(Layout(q, v.fields[k]))|
    ensures |JcsMembers(LayoutMembers(p, v, p(v.fields.Keys)))| == |JcsMembers(LayoutMembers(q, v, q(v.fields.Keys)))|
  {
    var keys := v.fields.Keys;
    var size: string -> nat := k => if k in v.fields then |JcsMember(Member(k, Layout(p, v.fields[k])))| else 0;
    forall k | k in v.fields ensures size(k) == |JcsMember(Member(k, Layout(q, v.fields[k])))| {
      MemberLength(k, Layout(p, v.fields[k]), Layout(q, v.fields[k]));
    }
    MembersLength(p, v, p(keys), size);
    MembersLength(q, v, q(keys), size);
    SumOfElements(size, p(keys), q(keys));
    NoElements(p(keys));
    NoElements(q(keys));
  }

  lemma {:induction false} SameLength(p: set<string> -> seq<string>, q: set<string> -> seq<string>, v: Value)
    requires Lists(p) && Lists(q)
    ensures |JcsPrint(Layout(p, v))| == |JcsPrint(Layout(q, v))|
    decreases v, 1
  {
    match v
    case Arr(items) => SameItemsLength(p, q, items);
    case Obj(fields) =>
      forall k | k in fields ensures |JcsPrint(Layout(p, fields[k]))| == |JcsPrint(Layout(q, fields[k]))| {
        SameLength(p, q, fields[k]);
      }
      SameMembersLength(p, q, v);
    case _ =>
  }

  lemma {:induction false} SameItemsLength(p: set<string> -> seq<string>, q: set<string> -> seq<string>, items: seq<Value>)
    requires Lists(p) && Lists(q)
    ensures |JcsItems(LayoutItems(p, items))| == |JcsItems(LayoutItems(q, items))|
    decreases items, 0
  {
    if items != [] {
      SameLength(p, q, items[0]);
      SameItemsLength(p, q, items[1..]);
      assert LayoutItems(p, items)[1..] == LayoutItems(p, items[1..]);
      assert LayoutItems(q, items)[1..] == LayoutItems(q, items[1..]);
    }
  }

  // ----- What makes two layouts equal, and what makes one plain -----

  /** The two orders list the keys of every object in the value, at any depth, alike. */
  ghost predicate SameOrders(p: set<string> -> seq<string>, q: set<string> -> seq<string>, v: Value)
    decreases v
  {
    match v
    case Arr(items) => forall i :: 0 <= i < |items| ==> SameOrders(p, q, items[i])
    case Obj(fields) => p(fields.Keys) == q(fields.Keys) && forall k :: k in fields ==> SameOrders(p, q, fields[k])
    case _ => true
  }

  lemma {:induction false} SameLayouts(p: set<string> -> seq<string>, q: set<string> -> seq<string>, v: Value)
    requires Lists(p) && Lists(q)
    ensures Layout(p, v) == Layout(q, v) <==> SameOrders(p, q, v)
    decreases v
  {
    match v
    case Arr(items) =>
      var x, y := LayoutItems(p, items), LayoutItems(q, items);
      forall i | 0 <= i < |items| ensures x[i] == y[i] <==> SameOrders(p, q, items[i]) {
        LayoutItemAt(p, items, i);
        LayoutItemAt(q, items, i);
        SameLayouts(p, q, items[i]);
      }
      assert x == y <==> forall i :: 0 <= i < |items| ==> x[i] == y[i];
    case Obj(fields) =>
      forall k | k in fields ensures Layout(p, fields[k]) == Layout(q, fields[k]) <==> SameOrders(p, q, fields[k]) {
        SameLayouts(p, q, fields[k]);
      }
      SameMembers(p, q, v);
    case _ =>
  }

  lemma SameMembers(p: set<string> -> seq<string>, q: set<string> -> seq<string>, v: Value)
    requires Lists(p) && Lists(q) && v.Obj?
    ensures LayoutMembers(p, v, p(v.fields.Keys)) == LayoutMembers(q, v, q(v.fields.Keys)) <==>
            && p(v.fields.Keys) == q(v.fields.Keys)
            && forall k :: k in v.fields ==> Layout(p, v.fields[k]) == Layout(q, v.fields[k])
  {
    var ks, ls := p(v.fields.Keys), q(v.fields.Keys);
    var x, y := LayoutMembers(p, v, ks), LayoutMembers(q, v, ls);
    forall i | 0 <= i < |ks| ensures x[i] == Member(ks[i], Layout(p, v.fields[ks[i]])) && ks[i] in v.fields {
      LayoutMemberAt(p, v, ks, i);
    }
    forall i | 0 <= i < |ls| ensures y[i] == Member(ls[i], Layout(q, v.fields[ls[i]])) && ls[i] in v.fields {
      LayoutMemberAt(q, v, ls, i);
    }
    if x == y {
      assert |ks| == |ls|;
      forall i | 0 <= i < |ks| ensures ks[i] == ls[i] {
        assert x[i] == y[i];
      }
      forall k | k in v.fields ensures Layout(p, v.fields[k]) == Layout(q, v.fields[k]) {
        assert k in Elements(ks);
        var i :| 0 <= i < |ks| && ks[i] == k;
        assert x[i] == y[i];
      }
    }
  }

  ghost predicate PlainValue(v: Value)
    decreases v
  {
    match v
    case Str(s) => PlainText(s)
    case Arr(items) => forall i :: 0 <= i < |items| ==> PlainValue(items[i])
    case Obj(fields) => forall k :: k in fields ==> PlainText(k) && PlainValue(fields[k])
    case _ => true
  }

  lemma {:induction false} PlainLayout(p: set<string> -> seq<string>, v: Value)
    requires Lists(p)
    ensures PlainTree(Layout(p, v)) <==> PlainValue(v)
    decreases v
  {
    match v
    case Arr(items) =>
      forall i | 0 <= i < |items| ensures PlainTree(LayoutItems(p, items)[i]) <==> PlainValue(items[i]) {
        LayoutItemAt(p, items, i);
        PlainLayout(p, items[i]);
      }
    case Obj(fields) =>
      forall k | k in fields ensures PlainTree(Layout(p, fields[k])) <==> PlainValue(fields[k]) {
        PlainLayout(p, fields[k]);
      }
      PlainLayoutMembers(p, v);
    case _ =>
  }

  lemma PlainLayoutMembers(p: set<string> -> seq<string>, v: Value)
    requires Lists(p) && v.Obj?
    ensures PlainTree(Layout(p, v)) <==> forall k :: k in v.fields ==> PlainText(k) && PlainTree(Layout(p, v.fields[k]))
  {
    var ks := p(v.fields.Keys);
    var x := LayoutMembers(p, v, ks);
    forall i | 0 <= i < |ks| ensures x[i] == Member(ks[i], Layout(p, v.fields[ks[i]])) && ks[i] in v.fields {
      LayoutMemberAt(p, v, ks, i);
    }
    if PlainTree(TObj(x)) {
      forall k | k in v.fields ensures PlainText(k) && PlainTree(Layout(p, v.fields[k])) {
        assert k in Elements(ks);
        var i :| 0 <= i < |ks| && ks[i] == k;
        assert PlainText(x[i].key) && PlainTree(x[i].value);
      }
    }
  }

  // ----- The two orders at hand -----

  lemma AscendingIsDistinct(less: (string, string) -> bool, ks: seq<string>)
    requires StrictOrder(less) && AscendingBy(less, ks)
    ensures Distinct(ks)
  {
  }

  lemma JcsKeysList()
    ensures Lists(JcsKeys)
  {
    Utf16IsStrict();
    forall keys ensures Distinct(JcsKeys(keys)) && Elements(JcsKeys(keys)) == keys {
      AscendingIsDistinct(Utf16Less, JcsKeys(keys));
    }
  }

  lemma SortedKeysList()
    ensures Lists(SortedKeys)
  {
    forall keys ensures Distinct(SortedKeys(keys)) && Elements(SortedKeys(keys)) == keys {
      AscendingDistinct(SortedKeys(keys));
    }
  }

  lemma AscendingDistinct(ks: seq<string>)
    requires Ascending(ks)
    ensures Distinct(ks)
  {
    forall i, j | 0 <= i < j < |ks| ensures ks[i] != ks[j] {
      CodePointIrreflexive(ks[i]);
    }
  }

  lemma {:induction false} ToTreeIsLayout(v: Value)
    requires Lists(SortedKeys)
    ensures ToTree(v) == Layout(SortedKeys, v)
    decreases v, 1
  {
    match v
    case Arr(items) => ToTreesAreLayout(items);
    case Obj(fields) => MembersAreLayout(v, SortedKeys(fields.Keys));
    case _ =>
  }

  lemma {:induction false} ToTreesAreLayout(items: seq<Value>)
    requires Lists(SortedKeys)
    ensures ToTrees(items) == LayoutItems(SortedKeys, items)
    decreases items, 0
  {
    if items != [] {
      ToTreeIsLayout(items[0]);
      ToTreesAreLayout(items[1..]);
    }
  }

  lemma {:induction false} MembersAreLayout(v: Value, keys: seq<string>)
    requires Lists(SortedKeys) && v.Obj? && Elements(keys) <= v.fields.Keys
    ensures MembersOf(v, keys) == LayoutMembers(SortedKeys, v, keys)
    decreases v, 0, |keys|
  {
    if keys != [] {
      TailElements(keys);
      ToTreeIsLayout(v.fields[keys[0]]);
      MembersAreLayout(v, keys[1..]);
    }
  }

  lemma AgreeingKeysSame(keys: set<string>)
    requires forall a, b :: a in keys && b in keys ==> !Swapped(a, b)
    ensures SortedKeys(keys) == JcsKeys(keys)
  {
    Utf16IsStrict();
    var ks := SortedKeys(keys);
    forall i, j | 0 <= i < j < |ks| ensures Utf16Less(ks[i], ks[j]) {
      assert ks[i] in Elements(ks) && ks[j] in Elements(ks);
      OrdersAgree(ks[i], ks[j]);
    }
    SortedOnce(Utf16Less, ks, JcsKeys(keys));
  }

  lemma InBothOrders(ks: seq<string>, a: string, b: string)
    requires Ascending(ks) && AscendingBy(Utf16Less, ks) && a in ks && b in ks && CodePointLess(a, b)
    ensures Utf16Less(a, b)
  {
    var i :| 0 <= i < |ks| && ks[i] == a;
    var j :| 0 <= j < |ks| && ks[j] == b;
    CodePointIrreflexive(a);
    if j < i {
      CodePointTransitive(a, b, a);
    }
  }

  lemma SameKeysAgree(keys: set<string>, a: string, b: string)
    requires SortedKeys(keys) == JcsKeys(keys) && a in keys && b in keys
    ensures !Swapped(a, b)
  {
    forall n: nat ensures !SwappedAt(a, b, n) {
      if SwappedAt(a, b, n) {
        SwappedIsLess(a, b, n);
        Utf16IsStrict();
        assert a in Elements(SortedKeys(keys)) && b in Elements(SortedKeys(keys));
        InBothOrders(SortedKeys(keys), a, b);
        OrdersAgree(a, b);
      }
    }
  }

  /** No two keys of one object, at any depth, are swapped. */
  ghost predicate Unswapped(v: Value)
    decreases v
  {
    match v
    case Arr(items) => forall i :: 0 <= i < |items| ==> Unswapped(items[i])
    case Obj(fields) =>
      && (forall a, b :: a in fields && b in fields ==> !Swapped(a, b))
      && forall k :: k in fields ==> Unswapped(fields[k])
    case _ => true
  }

  lemma {:induction false} OrdersAgreeExactly(v: Value)
    ensures SameOrders(SortedKeys, JcsKeys, v) <==> Unswapped(v)
    decreases v
  {
    match v
    case Arr(items) =>
      forall i | 0 <= i < |items| ensures SameOrders(SortedKeys, JcsKeys, items[i]) <==> Unswapped(items[i]) {
        OrdersAgreeExactly(items[i]);
      }
    case Obj(fields) =>
      forall k | k in fields ensures SameOrders(SortedKeys, JcsKeys, fields[k]) <==> Unswapped(fields[k]) {
        OrdersAgreeExactly(fields[k]);
      }
      KeysAgreeExactly(fields.Keys);
    case _ =>
  }

  lemma KeysAgreeExactly(keys: set<string>)
    ensures SortedKeys(keys) == JcsKeys(keys) <==> forall a, b :: a in keys && b in keys ==> !Swapped(a, b)
  {
    if SortedKeys(keys) == JcsKeys(keys) {
      forall a, b | a in keys && b in keys ensures !Swapped(a, b) {
        SameKeysAgree(keys, a, b);
      }
    } else {
      if forall a, b :: a in keys && b in keys ==> !Swapped(a, b) {
        AgreeingKeysSame(keys);
      }
    }
  }

  // ----- The exact condition -----

  ghost function JcsText(v: Value): string {
    JcsKeysList();
    JcsPrint(Layout(JcsKeys, v))
  }

  /** Two texts of one value under two orders. */
  lemma TextsAgree(p: set<string> -> seq<string>, q: set<string> -> seq<string>, v: Value)
    requires Lists(p) && Lists(q)
    ensures Print(Layout(p, v)) == JcsPrint(Layout(q, v)) <==> PlainValue(v) && SameOrders(p, q, v)
  {
    var t, u := Layout(p, v), Layout(q, v);
    SameLength(p, q, v);
    PrintCompares(t);
    PrintCompares(u);
    PlainLayout(p, v);
    PlainLayout(q, v);
    SameLayouts(p, q, v);
    if Print(t) == JcsPrint(u) {
      ParsePrint(t);
      ParsePrint(u);
    }
  }

  /**
   The canonical text of a value is the one that RFC 8785 prescribes if and only
   if none of its strings and keys, at any depth, contains a character that
   encoding/json escapes beyond it, and no object has two swapped keys.
   */
  lemma JcsExactly(v: Value)
    ensures CanonicalText(v) == JcsText(v) <==> PlainValue(v) && Unswapped(v)
  {
    JcsKeysList();
    SortedKeysList();
    ToTreeIsLayout(v);
    TextsAgree(SortedKeys, JcsKeys, v);
    OrdersAgreeExactly(v);
  }
}
