/**
 The in-memory store. `StoreState` is its abstract value and `Apply` the effect
 of each mutating operation; `MemStore` is the object that the broker shares,
 proved against them. Every operation holds the store's lock throughout, so it
 is one atomic step.
 */
module Store {
  import opened Protocol
  import opened Encoding

  /** The key under which a nonce is remembered. */
  function NonceKey(nonce: Slice<Byte>): string {
    HexEncode(nonce.Items())
  }

  datatype StoreState = StoreState(
    sigils: map<string, Sigil>,
    caps: map<string, CapabilityToken>,
    log: seq<RevocationEntry>,
    revoked: set<string>,
    nonces: set<string>)
  {
    /** The revocation index holds exactly the ids of the log. */
    ghost predicate Indexed() {
      forall id :: id in revoked <==> exists i :: 0 <= i < |log| && log[i].id == id
    }
  }

  const EMPTY := StoreState(map[], map[], [], {}, {})

  datatype StoreOp =
    | SaveSigil(sigil: Sigil)
    | SaveCap(cap: CapabilityToken)
    | RecordNonce(nonce: Slice<Byte>)
    | TryRecordNonce(nonce: Slice<Byte>)
    | Revoke(entry: RevocationEntry)
  {
    predicate Records(key: string) {
      (RecordNonce? || TryRecordNonce?) && NonceKey(nonce) == key
    }
  }

  function Apply(s: StoreState, op: StoreOp): StoreState {
    match op
    case SaveSigil(sigil) => s.(sigils := s.sigils[sigil.id := sigil])
    case SaveCap(cap) => s.(caps := s.caps[cap.id := cap])
    case RecordNonce(nonce) => s.(nonces := s.nonces + {NonceKey(nonce)})
    case TryRecordNonce(nonce) => s.(nonces := s.nonces + {NonceKey(nonce)})
    case Revoke(entry) => s.(log := s.log + [entry], revoked := s.revoked + {entry.id})
  }

  /** The store after the first n of a sequence of operations. */
  function After(s: StoreState, ops: seq<StoreOp>, n: nat): StoreState
    requires n <= |ops|
  {
    if n == 0 then s else Apply(After(s, ops, n - 1), ops[n - 1])
  }

  /** Later stores only add: the log grows at its end, nothing is un-revoked or un-consumed. */
  ghost predicate Extends(s: StoreState, t: StoreState) {
    s.log <= t.log && s.revoked <= t.revoked && s.nonces <= t.nonces
  }

  lemma {:induction false} RunExtends(s: StoreState, ops: seq<StoreOp>, m: nat, n: nat)
    requires m <= n <= |ops|
    ensures Extends(After(s, ops, m), After(s, ops, n))
    decreases n
  {
    if m < n {
      RunExtends(s, ops, m, n - 1);
    }
  }

  lemma ApplyKeepsIndexed(s: StoreState, op: StoreOp)
    requires s.Indexed()
    ensures Apply(s, op).Indexed()
  {
    if op.Revoke? {
      var t := Apply(s, op);
      forall id ensures id in t.revoked <==> exists i :: 0 <= i < |t.log| && t.log[i].id == id {
        if id == op.entry.id {
          assert t.log[|s.log|].id == id;
        } else if id in s.revoked {
          var i :| 0 <= i < |s.log| && s.log[i].id == id;
          assert t.log[i].id == id;
        }
      }
    }
  }

  /**
   Over every run from the empty store: the index is the set of logged ids, an
   id is revoked exactly when some operation revoked it, and a nonce is consumed
   exactly when some operation recorded those bytes.
   */
  lemma {:induction false} RunMeaning(ops: seq<StoreOp>, n: nat)
    requires n <= |ops|
    ensures After(EMPTY, ops, n).Indexed()
    ensures forall id :: id in After(EMPTY, ops, n).revoked <==>
                         exists i :: 0 <= i < n && ops[i].Revoke? && ops[i].entry.id == id
    ensures forall key :: key in After(EMPTY, ops, n).nonces <==> exists i :: 0 <= i < n && ops[i].Records(key)
  {
    if n > 0 {
      RunMeaning(ops, n - 1);
      ApplyKeepsIndexed(After(EMPTY, ops, n - 1), ops[n - 1]);
      assert forall key :: ops[n - 1].Records(key) ==> key in After(EMPTY, ops, n).nonces;
    }
  }

  /** The answer of the test-and-set at position i of a run. */
  function FirstConsumer(ops: seq<StoreOp>, i: nat): bool
    requires i < |ops| && ops[i].TryRecordNonce?
  {
    NonceKey(ops[i].nonce) !in After(EMPTY, ops, i).nonces
  }

  /** The test-and-set says yes exactly once per byte string: when no earlier operation recorded those bytes. */
  lemma FirstConsumerWins(ops: seq<StoreOp>, i: nat)
    requires i < |ops| && ops[i].TryRecordNonce?
    ensures FirstConsumer(ops, i) <==>
            forall j :: 0 <= j < i && (ops[j].RecordNonce? || ops[j].TryRecordNonce?) ==>
                          ops[j].nonce.Items() != ops[i].nonce.Items()
  {
    var key := NonceKey(ops[i].nonce);
    RunMeaning(ops, i);
    forall j | 0 <= j < i && ops[j].Records(key)
      ensures ops[j].nonce.Items() == ops[i].nonce.Items()
    {
      HexEncodeInjective(ops[j].nonce.Items(), ops[i].nonce.Items());
    }
    if j :| 0 <= j < i && (ops[j].RecordNonce? || ops[j].TryRecordNonce?) &&
            ops[j].nonce.Items() == ops[i].nonce.Items() {
      assert ops[j].Records(key);
    }
  }

  class MemStore {
    var sigils: map<string, Sigil>
    var caps: map<string, CapabilityToken>
    var log: seq<RevocationEntry>
    var revokedIds: set<string>
    var nonces: set<string>

    ghost function Value(): StoreState
      reads this
    {
      StoreState(sigils, caps, log, revokedIds, nonces)
    }

    ghost predicate Valid()
      reads this
    {
      Value().Indexed()
    }

    constructor ()
      ensures Valid() && Value() == EMPTY
    {
      sigils, caps, log, revokedIds, nonces := map[], map[], [], {}, {};
    }

    method PutSigil(s: Sigil)
      requires Valid()
      modifies this
      ensures Valid() && Value() == Apply(old(Value()), SaveSigil(s))
    {
      sigils := sigils[s.id := s];
    }

    method GetSigil(id: string) returns (r: Option<Sigil>)
      ensures r == if id in sigils then Some(sigils[id]) else None
    {
      r := if id in sigils then Some(sigils[id]) else None;
    }

    method PutCap(c: CapabilityToken)
      requires Valid()
      modifies this
      ensures Valid() && Value() == Apply(old(Value()), SaveCap(c))
    {
      caps := caps[c.id := c];
    }

    method MarkNonce(nonce: Slice<Byte>)
      requires Valid()
      modifies this
      ensures Valid() && Value() == Apply(old(Value()), RecordNonce(nonce))
    {
      nonces := nonces + {NonceKey(nonce)};
    }

    /** The body of both TryRecordNonce and RecordNonceStrict. */
    method TryMarkNonce(nonce: Slice<Byte>) returns (first: bool)
      requires Valid()
      modifies this
      ensures Valid() && Value() == Apply(old(Value()), TryRecordNonce(nonce))
      ensures first <==> NonceKey(nonce) !in old(nonces)
    {
      var key := NonceKey(nonce);
      if key in nonces {
        assert nonces + {key} == nonces;
        return false;
      }
      nonces := nonces + {key};
      return true;
    }

    method IsRevoked(id: string) returns (revoked: bool)
      requires Valid()
      ensures revoked <==> exists i :: 0 <= i < |log| && log[i].id == id
    {
      assert id in Value().revoked <==> exists i :: 0 <= i < |Value().log| && Value().log[i].id == id;
      revoked := id in revokedIds;
    }

    /** A copy in memory of its own: whatever the caller writes there, the store cannot change. */
    method RevocationList() returns (copy: array<RevocationEntry>)
      ensures fresh(copy) && copy[..] == log
    {
      copy := new RevocationEntry[|log|](i requires 0 <= i < |log| reads this => log[i]);
    }

    method AddRevocation(entry: RevocationEntry)
      requires Valid()
      modifies this
      ensures Valid() && Value() == Apply(old(Value()), Revoke(entry))
    {
      ApplyKeepsIndexed(Value(), Revoke(entry));
      log := log + [entry];
      revokedIds := revokedIds + {entry.id};
    }
  }

  /** A caller that overwrites every cell of a returned list leaves the store's value and later copies untouched. */
  method OverwriteCopy(store: MemStore, junk: RevocationEntry) returns (again: array<RevocationEntry>)
    ensures store.Value() == old(store.Value())
    ensures fresh(again) && again[..] == store.log
  {
    var copy := store.RevocationList();
    for i := 0 to copy.Length {
      copy[i] := junk;
    }
    again := store.RevocationList();
  }
}
