/**
 The text of an envelope, character by character: what goes over the wire and
 what is signed. The names of the members and their order stand here as literals.
 */
module WireText {
  import opened Protocol
  import opened Text
  import opened Encoding
  import opened Utf8
  import opened Sorting
  import opened Json
  import opened Rfc3339
  import opened Canonical
  import opened Documents
  import opened Attestation

  // ----- The text -----

  /** One member of an object. */
  function Entry(name: string, value: string): string {
    "\"" + name + "\":" + value
  }

  function Object(entries: seq<string>): string {
    "{" + Join(entries, ',') + "}"
  }

  function Array(items: seq<string>): string {
    "[" + Join(items, ',') + "]"
  }

  /** A string in quotes, with the escapes of encoding/json. */
  function Quoted(s: string): string {
    "\"" + EscapeAll(s) + "\""
  }

  function QuotedOrNull(s: Option<string>): string {
    if s.None? then "null" else Quoted(s.value)
  }

  /** A cap in the envelope's JSON, in the order of the Go struct. */
  function CapLine(c: CapDoc): string {
    Object([Entry("id", Quoted(c.id)), Entry("sigil_id", Quoted(c.sigilId)), Entry("scope", Quoted(c.scope)),
            Entry("issued_at", Quoted(c.issuedAt)), Entry("expires_at", Quoted(c.expiresAt)),
            Entry("nonce", QuotedOrNull(c.nonce))])
  }

  /** A cap in what is signed: the same members in ascending order. */
  function SignedCapLine(c: CapDoc): string {
    Object([Entry("expires_at", Quoted(c.expiresAt)), Entry("id", Quoted(c.id)), Entry("issued_at", Quoted(c.issuedAt)),
            Entry("nonce", QuotedOrNull(c.nonce)), Entry("scope", Quoted(c.scope)), Entry("sigil_id", Quoted(c.sigilId))])
  }

  function Lines(line: CapDoc -> string, caps: Slice<CapDoc>): string {
    match caps
    case NilSlice => "null"
    case Of(items) => Array(seq(|items|, i requires 0 <= i < |items| => line(items[i])))
  }

  function JsonLine(d: EnvelopeDoc): string {
    Object([Entry("version", Quoted(d.version)), Entry("sigil_id", Quoted(d.sigilId)),
            Entry("caps", Lines(CapLine, d.caps)), Entry("issuer", Quoted(d.issuer)),
            Entry("issued_at", Quoted(d.issuedAt)), Entry("expires_at", Quoted(d.expiresAt)),
            Entry("signature", QuotedOrNull(d.signature))])
  }

  /** Ascending, and without the signature. */
  function SignedLine(d: EnvelopeDoc): string {
    Object([Entry("caps", Lines(SignedCapLine, d.caps)), Entry("expires_at", Quoted(d.expiresAt)),
            Entry("issued_at", Quoted(d.issuedAt)), Entry("issuer", Quoted(d.issuer)),
            Entry("sigil_id", Quoted(d.sigilId)), Entry("version", Quoted(d.version))])
  }

  // ----- Printing gives these texts -----

  lemma {:induction false} ItemsText(ts: seq<Tree>, lines: seq<string>)
    requires |ts| == |lines| && forall i :: 0 <= i < |ts| ==> Print(ts[i]) == lines[i]
    ensures PrintItems(ts) == Join(lines, ',')
  {
    if |ts| > 1 {
      ItemsText(ts[1..], lines[1..]);
    }
  }

  /** Lower-case letters and underscores are not escaped. */
  predicate IsName(s: string) {
    forall i :: 0 <= i < |s| ==> 'a' <= s[i] <= 'z' || s[i] == '_'
  }

  lemma Regroup(q: string, name: string, colon: string, value: string)
    ensures q + name + q + colon + value == q + name + (q + colon) + value
  {
  }

  lemma EntryText(m: Member, name: string, value: string)
    requires m.key == name && IsName(name) && Print(m.value) == value
    ensures PrintMember(m) == Entry(name, value)
  {
    PlainIsItself(name);
    Regroup("\"", name, ":", value);
    assert "\"" + ":" == "\":";
  }

  lemma StringText(s: string)
    ensures Print(TStr(s)) == Quoted(s)
  {
  }

  lemma OptionText(s: Option<string>)
    ensures Print(OptionalTree(s)) == QuotedOrNull(s)
  {
  }

  lemma CapNames()
    ensures IsName("id") && IsName("sigil_id") && IsName("scope") && IsName("issued_at") && IsName("expires_at")
    ensures IsName("nonce")
  {
  }

  lemma EnvelopeNames()
    ensures IsName("version") && IsName("caps") && IsName("issuer") && IsName("signature")
  {
  }

  function Each(text: Member -> string, ms: seq<Member>): (es: seq<string>)
    ensures |es| == |ms|
  {
    seq(|ms|, i requires 0 <= i < |ms| => text(ms[i]))
  }

  lemma {:induction false} MembersText(ms: seq<Member>)
    ensures PrintMembers(ms) == Join(Each(PrintMember, ms), ',')
  {
    if |ms| > 1 {
      MembersText(ms[1..]);
      assert Each(PrintMember, ms)[1..] == Each(PrintMember, ms[1..]);
    }
  }

  lemma ObjectText(ms: seq<Member>, es: seq<string>)
    requires es == Each(PrintMember, ms)
    ensures Print(TObj(ms)) == Object(es)
  {
    MembersText(ms);
  }

  lemma EachOfSix(text: Member -> string, m0: Member, m1: Member, m2: Member, m3: Member, m4: Member, m5: Member,
                  e0: string, e1: string, e2: string, e3: string, e4: string, e5: string)
    requires text(m0) == e0 && text(m1) == e1 && text(m2) == e2
    requires text(m3) == e3 && text(m4) == e4 && text(m5) == e5
    ensures Each(text, [m0, m1, m2, m3, m4, m5]) == [e0, e1, e2, e3, e4, e5]
  {
  }

  lemma EachOfSeven(text: Member -> string, m0: Member, m1: Member, m2: Member, m3: Member, m4: Member, m5: Member,
                    m6: Member, e0: string, e1: string, e2: string, e3: string, e4: string, e5: string, e6: string)
    requires text(m0) == e0 && text(m1) == e1 && text(m2) == e2 && text(m3) == e3
    requires text(m4) == e4 && text(m5) == e5 && text(m6) == e6
    ensures Each(text, [m0, m1, m2, m3, m4, m5, m6]) == [e0, e1, e2, e3, e4, e5, e6]
  {
  }

  lemma SixText(m0: Member, m1: Member, m2: Member, m3: Member, m4: Member, m5: Member,
                e0: string, e1: string, e2: string, e3: string, e4: string, e5: string)
    requires PrintMember(m0) == e0 && PrintMember(m1) == e1 && PrintMember(m2) == e2
    requires PrintMember(m3) == e3 && PrintMember(m4) == e4 && PrintMember(m5) == e5
    ensures Print(TObj([m0, m1, m2, m3, m4, m5])) == Object([e0, e1, e2, e3, e4, e5])
  {
    EachOfSix(PrintMember, m0, m1, m2, m3, m4, m5, e0, e1, e2, e3, e4, e5);
    ObjectText([m0, m1, m2, m3, m4, m5], [e0, e1, e2, e3, e4, e5]);
  }

  lemma SevenText(m0: Member, m1: Member, m2: Member, m3: Member, m4: Member, m5: Member, m6: Member,
                  e0: string, e1: string, e2: string, e3: string, e4: string, e5: string, e6: string)
    requires PrintMember(m0) == e0 && PrintMember(m1) == e1 && PrintMember(m2) == e2 && PrintMember(m3) == e3
    requires PrintMember(m4) == e4 && PrintMember(m5) == e5 && PrintMember(m6) == e6
    ensures Print(TObj([m0, m1, m2, m3, m4, m5, m6])) == Object([e0, e1, e2, e3, e4, e5, e6])
  {
    EachOfSeven(PrintMember, m0, m1, m2, m3, m4, m5, m6, e0, e1, e2, e3, e4, e5, e6);
    ObjectText([m0, m1, m2, m3, m4, m5, m6], [e0, e1, e2, e3, e4, e5, e6]);
  }

  lemma StringEntry(name: string, s: string)
    requires IsName(name)
    ensures PrintMember(Member(name, TStr(s))) == Entry(name, Quoted(s))
  {
    StringText(s);
    EntryText(Member(name, TStr(s)), name, Quoted(s));
  }

  lemma OptionEntry(name: string, s: Option<string>)
    requires IsName(name)
    ensures PrintMember(Member(name, OptionalTree(s))) == Entry(name, QuotedOrNull(s))
  {
    OptionText(s);
    EntryText(Member(name, OptionalTree(s)), name, QuotedOrNull(s));
  }

  lemma CapText(c: CapDoc)
    ensures Print(TObj(CapMembers(c))) == CapLine(c)
  {
    CapNames();
    StringEntry("id", c.id); StringEntry("sigil_id", c.sigilId); StringEntry("scope", c.scope);
    StringEntry("issued_at", c.issuedAt); StringEntry("expires_at", c.expiresAt); OptionEntry("nonce", c.nonce);
    SixText(Member("id", TStr(c.id)), Member("sigil_id", TStr(c.sigilId)), Member("scope", TStr(c.scope)),
            Member("issued_at", TStr(c.issuedAt)), Member("expires_at", TStr(c.expiresAt)),
            Member("nonce", OptionalTree(c.nonce)),
            Entry("id", Quoted(c.id)), Entry("sigil_id", Quoted(c.sigilId)), Entry("scope", Quoted(c.scope)),
            Entry("issued_at", Quoted(c.issuedAt)), Entry("expires_at", Quoted(c.expiresAt)),
            Entry("nonce", QuotedOrNull(c.nonce)));
  }

  lemma {:induction false} CapTreesAt(caps: seq<CapDoc>, i: nat)
    requires i < |caps|
    ensures |CapTrees(caps)| == |caps| && CapTrees(caps)[i] == TObj(CapMembers(caps[i]))
  {
    if |caps| > 1 {
      CapTreesAt(caps[1..], if i > 0 then i - 1 else 0);
    }
  }

  lemma ArrayText(ts: seq<Tree>, lines: seq<string>)
    requires |ts| == |lines| && forall i :: 0 <= i < |ts| ==> Print(ts[i]) == lines[i]
    ensures Print(TArr(ts)) == Array(lines)
  {
    ItemsText(ts, lines);
  }

  lemma LinesOf(line: CapDoc -> string, items: seq<CapDoc>, lines: seq<string>)
    requires |lines| == |items| && forall i :: 0 <= i < |items| ==> lines[i] == line(items[i])
    ensures Lines(line, Of(items)) == Array(lines)
  {
    assert lines == seq(|items|, i requires 0 <= i < |items| => line(items[i]));
  }

  lemma CapsText(caps: Slice<CapDoc>)
    ensures Print(CapsTree(caps)) == Lines(CapLine, caps)
  {
    if caps.Of? {
      var items := caps.elements;
      var ts := CapTrees(items);
      if items != [] {
        CapTreesAt(items, 0);
      }
      var lines := seq(|items|, i requires 0 <= i < |items| => CapLine(items[i]));
      forall i | 0 <= i < |items| ensures Print(ts[i]) == lines[i] {
        CapTreesAt(items, i);
        CapText(items[i]);
      }
      ArrayText(ts, lines);
      LinesOf(CapLine, items, lines);
    }
  }

  lemma JsonText(d: EnvelopeDoc)
    ensures ToJson(d) == Encode(JsonLine(d))
  {
    CapNames();
    EnvelopeNames();
    StringEntry("version", d.version); StringEntry("sigil_id", d.sigilId); StringEntry("issuer", d.issuer);
    StringEntry("issued_at", d.issuedAt); StringEntry("expires_at", d.expiresAt); OptionEntry("signature", d.signature);
    CapsText(d.caps);
    EntryText(Member("caps", CapsTree(d.caps)), "caps", Lines(CapLine, d.caps));
    SevenText(Member("version", TStr(d.version)), Member("sigil_id", TStr(d.sigilId)), Member("caps", CapsTree(d.caps)),
              Member("issuer", TStr(d.issuer)), Member("issued_at", TStr(d.issuedAt)),
              Member("expires_at", TStr(d.expiresAt)), Member("signature", OptionalTree(d.signature)),
              Entry("version", Quoted(d.version)), Entry("sigil_id", Quoted(d.sigilId)),
              Entry("caps", Lines(CapLine, d.caps)), Entry("issuer", Quoted(d.issuer)),
              Entry("issued_at", Quoted(d.issuedAt)), Entry("expires_at", Quoted(d.expiresAt)),
              Entry("signature", QuotedOrNull(d.signature)));
  }

  // ----- The same members in ascending order -----

  function SortedCap(c: CapDoc): seq<Member> {
    [Member("expires_at", TStr(c.expiresAt)), Member("id", TStr(c.id)), Member("issued_at", TStr(c.issuedAt)),
     Member("nonce", OptionalTree(c.nonce)), Member("scope", TStr(c.scope)), Member("sigil_id", TStr(c.sigilId))]
  }

  function SortedCaps(caps: Slice<CapDoc>): Tree {
    match caps
    case NilSlice => TNull
    case Of(items) => TArr(seq(|items|, i requires 0 <= i < |items| => TObj(SortedCap(items[i]))))
  }

  function SortedBody(d: EnvelopeDoc): seq<Member> {
    [Member("caps", SortedCaps(d.caps)), Member("expires_at", TStr(d.expiresAt)), Member("issued_at", TStr(d.issuedAt)),
     Member("issuer", TStr(d.issuer)), Member("sigil_id", TStr(d.sigilId)), Member("version", TStr(d.version))]
  }

  lemma SortedCapText(c: CapDoc)
    ensures Print(TObj(SortedCap(c))) == SignedCapLine(c)
  {
    CapNames();
    StringEntry("id", c.id); StringEntry("sigil_id", c.sigilId); StringEntry("scope", c.scope);
    StringEntry("issued_at", c.issuedAt); StringEntry("expires_at", c.expiresAt); OptionEntry("nonce", c.nonce);
    SixText(Member("expires_at", TStr(c.expiresAt)), Member("id", TStr(c.id)), Member("issued_at", TStr(c.issuedAt)),
            Member("nonce", OptionalTree(c.nonce)), Member("scope", TStr(c.scope)), Member("sigil_id", TStr(c.sigilId)),
            Entry("expires_at", Quoted(c.expiresAt)), Entry("id", Quoted(c.id)), Entry("issued_at", Quoted(c.issuedAt)),
            Entry("nonce", QuotedOrNull(c.nonce)), Entry("scope", Quoted(c.scope)), Entry("sigil_id", Quoted(c.sigilId)));
  }

  lemma SortedCapsText(caps: Slice<CapDoc>)
    ensures Print(SortedCaps(caps)) == Lines(SignedCapLine, caps)
  {
    if caps.Of? {
      var items := caps.elements;
      var ts := SortedCaps(caps).items;
      var lines := seq(|items|, i requires 0 <= i < |items| => SignedCapLine(items[i]));
      forall i | 0 <= i < |items| ensures Print(ts[i]) == lines[i] {
        SortedCapText(items[i]);
      }
      ArrayText(ts, lines);
      LinesOf(SignedCapLine, items, lines);
    }
  }

  lemma SortedBodyText(d: EnvelopeDoc)
    ensures Print(TObj(SortedBody(d))) == SignedLine(d)
  {
    CapNames();
    EnvelopeNames();
    StringEntry("version", d.version); StringEntry("sigil_id", d.sigilId); StringEntry("issuer", d.issuer);
    StringEntry("issued_at", d.issuedAt); StringEntry("expires_at", d.expiresAt);
    SortedCapsText(d.caps);
    EntryText(Member("caps", SortedCaps(d.caps)), "caps", Lines(SignedCapLine, d.caps));
    SixText(Member("caps", SortedCaps(d.caps)), Member("expires_at", TStr(d.expiresAt)),
            Member("issued_at", TStr(d.issuedAt)), Member("issuer", TStr(d.issuer)), Member("sigil_id", TStr(d.sigilId)),
            Member("version", TStr(d.version)),
            Entry("caps", Lines(SignedCapLine, d.caps)), Entry("expires_at", Quoted(d.expiresAt)),
            Entry("issued_at", Quoted(d.issuedAt)), Entry("issuer", Quoted(d.issuer)), Entry("sigil_id", Quoted(d.sigilId)),
            Entry("version", Quoted(d.version)));
  }

  lemma {:induction false} LessAt(s: string, t: string, i: nat)
    requires i < |s| && i < |t| && s[..i] == t[..i] && s[i] < t[i]
    ensures CodePointLess(s, t)
  {
    if i > 0 {
      assert s[..i][0] == s[0] && t[..i][0] == t[0];
      assert s[1..][..i - 1] == s[..i][1..] && t[1..][..i - 1] == t[..i][1..];
      LessAt(s[1..], t[1..], i - 1);
    }
  }

  lemma {:induction false} Chain(ms: seq<Member>, i: nat, j: nat)
    requires forall k :: 0 <= k < |ms| - 1 ==> CodePointLess(ms[k].key, ms[k + 1].key)
    requires i < j < |ms|
    ensures CodePointLess(ms[i].key, ms[j].key)
  {
    if i < j - 1 {
      Chain(ms, i, j - 1);
      assert CodePointLess(ms[j - 1].key, ms[j - 1 + 1].key);
      CodePointTransitive(ms[i].key, ms[j - 1].key, ms[j].key);
    }
  }

  lemma ChainIsCanonical(ms: seq<Member>)
    requires forall k :: 0 <= k < |ms| - 1 ==> CodePointLess(ms[k].key, ms[k + 1].key)
    requires forall k :: 0 <= k < |ms| ==> Canonical.Canonical(ms[k].value)
    ensures Canonical.Canonical(TObj(ms)) && DistinctKeys(ms)
  {
    forall i, j | 0 <= i < j < |ms| ensures CodePointLess(ms[i].key, ms[j].key) && ms[i].key != ms[j].key {
      Chain(ms, i, j);
      CodePointIrreflexive(ms[i].key);
    }
  }

  lemma CapKeysAscend()
    ensures CodePointLess("expires_at", "id") && CodePointLess("id", "issued_at") && CodePointLess("issued_at", "nonce")
    ensures CodePointLess("nonce", "scope") && CodePointLess("scope", "sigil_id")
  {
    LessAt("id", "issued_at", 1);
    LessAt("scope", "sigil_id", 1);
  }

  lemma BodyKeysAscend()
    ensures CodePointLess("caps", "expires_at") && CodePointLess("expires_at", "issued_at")
    ensures CodePointLess("issued_at", "issuer") && CodePointLess("issuer", "sigil_id")
    ensures CodePointLess("sigil_id", "version")
  {
    assert "issued_at"[..5] == "issue" && "issuer"[..5] == "issue";
    LessAt("issued_at", "issuer", 5);
  }

  lemma SortedCapIsCanonical(c: CapDoc)
    ensures Canonical.Canonical(TObj(SortedCap(c))) && DistinctKeys(SortedCap(c))
  {
    CapKeysAscend();
    ChainIsCanonical(SortedCap(c));
  }

  lemma SortedBodyIsCanonical(d: EnvelopeDoc)
    ensures Canonical.Canonical(TObj(SortedBody(d))) && DistinctKeys(SortedBody(d))
  {
    BodyKeysAscend();
    assert Canonical.Canonical(SortedCaps(d.caps)) by {
      if d.caps.Of? {
        forall i | 0 <= i < |d.caps.elements| ensures Canonical.Canonical(SortedCaps(d.caps).items[i]) {
          SortedCapIsCanonical(d.caps.elements[i]);
        }
      }
    }
    ChainIsCanonical(SortedBody(d));
  }

  // ----- They denote the same object -----

  ghost predicate Matches(m: Member, n: Member) {
    m.key == n.key && Denote(m.value) == Denote(n.value)
  }

  lemma MemberOf(ms: seq<Member>, k: string) returns (i: nat)
    requires k in DenoteMembers(ms)
    ensures i < |ms| && ms[i].key == k
  {
    DenotedKeys(ms);
    assert k in Elements(KeysOf(ms));
    i :| 0 <= i < |ms| && KeysOf(ms)[i] == k;
  }

  lemma SameObjectAt(ms: seq<Member>, ns: seq<Member>, skip: string, q: seq<nat>, k: string)
    requires DistinctKeys(ms) && DistinctKeys(ns) && k in DenoteMembers(ms) && k != skip
    requires |q| == |ms| && forall i :: 0 <= i < |ms| && ms[i].key != skip ==> q[i] < |ns| && Matches(ms[i], ns[q[i]])
    ensures k in DenoteMembers(ns) && DenoteMembers(ns)[k] == DenoteMembers(ms)[k]
  {
    var i := MemberOf(ms, k);
    DenotedAt(ms, i);
    DenotedAt(ns, q[i]);
  }

  /** Two lists of members that match each other, up to one key, denote the same object without that key. */
  lemma SameObject(ms: seq<Member>, ns: seq<Member>, skip: string, p: seq<nat>, q: seq<nat>)
    requires DistinctKeys(ms) && DistinctKeys(ns) && skip !in DenoteMembers(ns)
    requires |p| == |ns| && forall j :: 0 <= j < |ns| && ns[j].key != skip ==> p[j] < |ms| && Matches(ns[j], ms[p[j]])
    requires |q| == |ms| && forall i :: 0 <= i < |ms| && ms[i].key != skip ==> q[i] < |ns| && Matches(ms[i], ns[q[i]])
    ensures DenoteMembers(ms) - {skip} == DenoteMembers(ns)
  {
    var x, y := DenoteMembers(ms) - {skip}, DenoteMembers(ns);
    forall k | k in x ensures k in y && x[k] == y[k] {
      SameObjectAt(ms, ns, skip, q, k);
    }
    forall k | k in y ensures k in x {
      SameObjectAt(ns, ms, skip, p, k);
    }
  }

  lemma Absent(ms: seq<Member>, key: string)
    requires forall i :: 0 <= i < |ms| ==> ms[i].key != key
    ensures key !in DenoteMembers(ms)
  {
    if key in DenoteMembers(ms) {
      var i := MemberOf(ms, key);
    }
  }

  lemma CapKeysDiffer(c: CapDoc)
    ensures DistinctKeys(CapMembers(c)) && "" !in DenoteMembers(CapMembers(c)) && "" !in DenoteMembers(SortedCap(c))
  {
    Absent(CapMembers(c), "");
    Absent(SortedCap(c), "");
  }

  lemma CapsMatch(c: CapDoc, ms: seq<Member>, ns: seq<Member>, p: seq<nat>, q: seq<nat>)
    requires ms == CapMembers(c) && ns == SortedCap(c) && p == [4, 0, 3, 5, 2, 1] && q == [1, 5, 4, 2, 0, 3]
    ensures forall j :: 0 <= j < |ns| ==> p[j] < |ms| && Matches(ns[j], ms[p[j]])
    ensures forall i :: 0 <= i < |ms| ==> q[i] < |ns| && Matches(ms[i], ns[q[i]])
  {
  }

  lemma WithoutAbsent(fields: map<string, Value>, key: string)
    requires key !in fields
    ensures fields - {key} == fields
  {
  }

  lemma SameCap(c: CapDoc)
    ensures Denote(TObj(CapMembers(c))) == Denote(TObj(SortedCap(c)))
  {
    var ms, ns := CapMembers(c), SortedCap(c);
    var p, q := [4, 0, 3, 5, 2, 1], [1, 5, 4, 2, 0, 3];
    CapsMatch(c, ms, ns, p, q);
    SortedCapIsCanonical(c);
    CapKeysDiffer(c);
    SameObject(ms, ns, "", p, q);
    WithoutAbsent(DenoteMembers(ms), "");
  }

  lemma {:induction false} DenotedItem(ts: seq<Tree>, i: nat)
    requires i < |ts|
    ensures |DenoteItems(ts)| == |ts| && DenoteItems(ts)[i] == Denote(ts[i])
  {
    DenoteNext(ts[0], ts[1..]);
    assert ts == [ts[0]] + ts[1..];
    if |ts| > 1 {
      DenotedItem(ts[1..], if i > 0 then i - 1 else 0);
    }
  }

  lemma SameItems(ts: seq<Tree>, us: seq<Tree>)
    requires |ts| == |us| && forall i :: 0 <= i < |ts| ==> Denote(ts[i]) == Denote(us[i])
    ensures DenoteItems(ts) == DenoteItems(us)
  {
    if ts != [] {
      DenotedItem(ts, 0);
      DenotedItem(us, 0);
    }
    forall i | 0 <= i < |ts| ensures DenoteItems(ts)[i] == DenoteItems(us)[i] {
      DenotedItem(ts, i);
      DenotedItem(us, i);
    }
  }

  lemma SameCaps(caps: Slice<CapDoc>)
    ensures Denote(CapsTree(caps)) == Denote(SortedCaps(caps))
  {
    if caps.Of? {
      var items := caps.elements;
      var ts, us := CapTrees(items), SortedCaps(caps).items;
      if items != [] {
        CapTreesAt(items, 0);
      }
      forall i | 0 <= i < |items| ensures Denote(ts[i]) == Denote(us[i]) {
        CapTreesAt(items, i);
        SameCap(items[i]);
      }
      SameItems(ts, us);
    }
  }

  lemma BodiesMatch(d: EnvelopeDoc, ms: seq<Member>, ns: seq<Member>, p: seq<nat>, q: seq<nat>)
    requires ms == Members(d) && ns == SortedBody(d) && p == [2, 5, 4, 3, 1, 0] && q == [5, 4, 0, 3, 2, 1, 0]
    requires Denote(CapsTree(d.caps)) == Denote(SortedCaps(d.caps))
    ensures forall j :: 0 <= j < |ns| ==> p[j] < |ms| && Matches(ns[j], ms[p[j]])
    ensures forall i :: 0 <= i < |ms| && ms[i].key != "signature" ==> q[i] < |ns| && Matches(ms[i], ns[q[i]])
    ensures forall j :: 0 <= j < |ns| ==> ns[j].key != "signature"
  {
  }

  lemma SameBodies(d: EnvelopeDoc)
    ensures DenoteMembers(Members(d)) - {"signature"} == DenoteMembers(SortedBody(d))
  {
    var ms, ns := Members(d), SortedBody(d);
    var p, q := [2, 5, 4, 3, 1, 0], [5, 4, 0, 3, 2, 1, 0];
    SameCaps(d.caps);
    BodiesMatch(d, ms, ns, p, q);
    Absent(ns, "signature");
    SortedBodyIsCanonical(d);
    MembersHold(d);
    SameObject(ms, ns, "signature", p, q);
  }

  lemma BodyText(d: EnvelopeDoc)
    ensures Body(ToJson(d)).Some? && CanonicalBytes(Body(ToJson(d)).value) == Encode(SignedLine(d))
  {
    BodyOf(d);
    SameBodies(d);
    SortedBodyIsCanonical(d);
    CanonicalTreeUnique(TObj(SortedBody(d)));
    SortedBodyText(d);
  }

  // ----- The texts of an envelope -----

  /** Timestamps in RFC 3339 and bytes in base64, nil as null. */
  function CapFields(c: CapabilityToken): CapDoc
    requires Encodable(c.issuedAt) && Encodable(c.expiresAt)
  {
    CapDoc(id := c.id, sigilId := c.sigilId, scope := c.scope,
           issuedAt := TimeText(c.issuedAt), expiresAt := TimeText(c.expiresAt),
           nonce := if c.nonce == NilSlice then None else Some(Base64(c.nonce.elements)))
  }

  function EnvelopeFields(e: Envelope): EnvelopeDoc
    requires AllTimes(Encodable, e)
  {
    var caps := e.caps.Items();
    EnvelopeDoc(version := e.version, sigilId := e.sigilId, issuer := e.issuer,
                caps := if e.caps == NilSlice then NilSlice
                        else Of(seq(|caps|, i requires 0 <= i < |caps| => CapFields(caps[i]))),
                issuedAt := TimeText(e.issuedAt), expiresAt := TimeText(e.expiresAt),
                signature := if e.signature == NilSlice then None else Some(Base64(e.signature.elements)))
  }

  lemma {:induction false} CapDocsAt(times: TimeFormat, caps: seq<CapabilityToken>, docs: seq<CapDoc>)
    requires |docs| == |caps| && forall i :: 0 <= i < |caps| ==> CapDocOf(times, caps[i]) == Some(docs[i])
    ensures CapDocs(times, caps) == Some(docs)
  {
    if caps != [] {
      CapDocsAt(times, caps[1..], docs[1..]);
      assert docs == [docs[0]] + docs[1..];
    }
  }

  lemma CapFieldsOf(c: CapabilityToken)
    requires Encodable(c.issuedAt) && Encodable(c.expiresAt)
    ensures CapDocOf(RFC3339, c) == Some(CapFields(c))
  {
  }

  lemma CapsFieldsOf(e: Envelope)
    requires AllTimes(Encodable, e)
    ensures SliceDoc(RFC3339, e.caps) == Some(EnvelopeFields(e).caps)
  {
    if e.caps.Of? {
      var caps, docs := e.caps.elements, EnvelopeFields(e).caps.elements;
      assert caps == e.caps.Items();
      forall i | 0 <= i < |caps| ensures CapDocOf(RFC3339, caps[i]) == Some(docs[i]) {
        assert Encodable(e.caps.Items()[i].issuedAt);
        CapFieldsOf(caps[i]);
      }
      CapDocsAt(RFC3339, caps, docs);
    }
  }

  lemma DocFrom(times: TimeFormat, e: Envelope, d: EnvelopeDoc)
    requires SliceDoc(times, e.caps) == Some(d.caps) && d.version == e.version && d.sigilId == e.sigilId
    requires times.write(e.issuedAt) == Some(d.issuedAt) && times.write(e.expiresAt) == Some(d.expiresAt)
    requires d.issuer == e.issuer && d.signature == BlobText(e.signature)
    ensures DocOf(times, e) == Some(d)
  {
  }

  lemma FieldsOf(e: Envelope)
    requires AllTimes(Encodable, e)
    ensures DocOf(RFC3339, e) == Some(EnvelopeFields(e))
  {
    CapsFieldsOf(e);
    DocFrom(RFC3339, e, EnvelopeFields(e));
  }

  /**
   The wire form and the signed bytes of every envelope, as text: member by
   member, the wire form in the order of the struct, the signed bytes ascending at
   both levels and without the signature.
   */
  lemma EnvelopeTexts(e: Envelope)
    requires AllTimes(Encodable, e)
    ensures EnvelopeJson(e) == Some(Encode(JsonLine(EnvelopeFields(e))))
    ensures SignedBytes(e) == Some(Encode(SignedLine(EnvelopeFields(e))))
  {
    FieldsOf(e);
    JsonText(EnvelopeFields(e));
    BodyText(EnvelopeFields(e));
  }
}
