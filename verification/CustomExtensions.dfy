/**
  * Custom TLS extensions (custom_extensions.cc): registering them, adding them to a hello and looking for
  * them in the peer's, with a 16-bit set of those sent or received.
  */
module CustomExtensions {
  import opened Bits
  import opened Bytes
  import opened TlsExtensions

  /** MAX_NUM_CUSTOM_EXTENSIONS: the number of bits in the set */
  const MAX_NUM: nat := 16

  /** What an add callback answers for an extension */
  datatype Answer = Include(contents: seq<byte>) | Omit | Abort

  /** Distinct 16-bit values, no more than the set has bits, and none that the library handles itself */
  predicate IsRegistry(stack: seq<nat>, builtIn: set<nat>) {
    && |stack| <= MAX_NUM
    && (forall v <- stack :: v < 0x1_0000 && v !in builtIn)
    && forall i, j | 0 <= i < j < |stack| :: stack[i] != stack[j]
  }

  /** custom_ext_find */
  method Find(stack: seq<nat>, value: nat) returns (found: Option<nat>)
    ensures found == IndexOf(stack, value)
  {
    for i := 0 to |stack|
      invariant value !in stack[..i]
    {
      if stack[i] == value {
        FirstIs(stack, value, i);
        return Some(i);
      }
    }
    assert stack[..|stack|] == stack;
    found := None;
  }

  lemma FirstIs(stack: seq<nat>, value: nat, i: nat)
    requires i < |stack| && stack[i] == value && value !in stack[..i]
    ensures IndexOf(stack, value) == Some(i)
  {
    var f := IndexOf(stack, value);
    assert f.Some? ==> f.value <= i && i <= f.value;
  }

  /** The extensions that a context has registered for one role */
  class Registry {
    const builtIn: set<nat>
    var stack: seq<nat>

    ghost predicate Valid()
      reads this
    {
      IsRegistry(stack, builtIn)
    }

    constructor (builtIn: set<nat>)
      ensures Valid() && stack == [] && this.builtIn == builtIn
    {
      this.builtIn := builtIn;
      stack := [];
    }

    /** custom_ext_append, when there is memory for it */
    method Append(value: nat, hasAddCallback: bool) returns (ok: bool)
      requires Valid()
      modifies this
      ensures Valid()
      ensures ok == (hasAddCallback && value <= 0xffff && value !in builtIn && |old(stack)| < MAX_NUM && value !in old(stack))
      ensures stack == if ok then old(stack) + [value] else old(stack)
    {
      if !hasAddCallback || 0xffff < value || value in builtIn || MAX_NUM <= |stack| {
        return false;
      }
      var found := Find(stack, value);
      if found.Some? {
        return false;
      }
      stack := stack + [value];
      ok := true;
    }
  }

  // The set

  /** `m & (1u << i)` is not zero if and only if bit i is set. */
  lemma TestBit(m: nat, i: nat)
    requires m < Pow2(16) && i < 16
    ensures And(m, Shl(1, i, 32)) != 0 <==> Bit(m, i)
  {
    hide Bit, And, Shl, Pow2;
    OneShifted(i);
    AndBit(m, Pow2(i), i);
    OneBit(i, i);
    if Bit(m, i) {
      ZeroBit(i);
    } else {
      forall j | 0 <= j < 16 ensures Bit(And(m, Pow2(i)), j) <==> Bit(0, j) {
        AndBit(m, Pow2(i), j);
        OneBit(i, j);
        ZeroBit(j);
      }
      AndBound(m, Pow2(i), 16);
      SameBits(And(m, Pow2(i)), 0, 16);
    }
  }

  lemma {:induction false} AndBound(a: nat, b: nat, w: nat)
    requires a < Pow2(w)
    ensures And(a, b) < Pow2(w)
    decreases a
  {
    if a > 0 {
      AndBound(a / 2, b / 2, w - 1);
    }
  }

  lemma OneShifted(i: nat)
    requires i < 16
    ensures Shl(1, i, 32) == Pow2(i) < Pow2(16)
  {
    Pow2Monotonic(i + 1, 16);
    Pow2Monotonic(16, 32);
    ShlSmall(1, i, 32);
  }

  lemma SetBit(m: nat, i: nat, j: nat)
    requires m < Pow2(16) && i < 16
    ensures Or(m, Shl(1, i, 32)) < Pow2(16)
    ensures Bit(Or(m, Shl(1, i, 32)), j) <==> Bit(m, j) || j == i
  {
    hide Bit, Or, Shl, Pow2;
    OneShifted(i);
    OrBound(m, Pow2(i), 16);
    OrBit(m, Pow2(i), j);
    OneBit(i, j);
  }

  // Hellos

  /** The extensions among the first n that are asked for and included, as entries */
  function Chosen(stack: seq<nat>, answers: seq<Answer>, asked: set<nat>, n: nat): (es: seq<Entry>)
    requires n <= |stack| == |answers|
    ensures forall e <- es :: exists i :: 0 <= i < n && i in asked && answers[i].Include? && e == Entry(stack[i], answers[i].contents)
  {
    if n == 0 then []
    else
      var es := Chosen(stack, answers, asked, n - 1);
      if n - 1 in asked && answers[n - 1].Include? then es + [Entry(stack[n - 1], answers[n - 1].contents)] else es
  }

  lemma {:induction false} ChosenHas(stack: seq<nat>, answers: seq<Answer>, asked: set<nat>, n: nat, i: nat)
    requires i < n <= |stack| == |answers| && i in asked && answers[i].Include?
    ensures Entry(stack[i], answers[i].contents) in Chosen(stack, answers, asked, n)
  {
    if i < n - 1 {
      ChosenHas(stack, answers, asked, n - 1, i);
    }
  }

  /** The positions asked for and included, in rising order */
  function ChosenAt(answers: seq<Answer>, asked: set<nat>, n: nat): (at: seq<nat>)
    requires n <= |answers|
    ensures forall i :: i in at <==> i < n && i in asked && answers[i].Include?
    ensures forall k, l | 0 <= k < l < |at| :: at[k] < at[l]
  {
    if n == 0 then []
    else
      var at := ChosenAt(answers, asked, n - 1);
      assert forall k | 0 <= k < |at| :: at[k] in at;
      if n - 1 in asked && answers[n - 1].Include? then at + [n - 1] else at
  }

  /** The entries chosen are those of these positions, in that order. */
  lemma {:induction false} ChosenInOrder(stack: seq<nat>, answers: seq<Answer>, asked: set<nat>, n: nat, k: nat)
    requires n <= |stack| == |answers|
    ensures |Chosen(stack, answers, asked, n)| == |ChosenAt(answers, asked, n)|
    ensures k < |ChosenAt(answers, asked, n)| ==>
              var i := ChosenAt(answers, asked, n)[k];
              i in ChosenAt(answers, asked, n) && Chosen(stack, answers, asked, n)[k] == Entry(stack[i], answers[i].contents)
  {
    if n > 0 {
      ChosenInOrder(stack, answers, asked, n - 1, k);
    }
  }

  lemma {:induction false} PutSnoc(es: seq<Entry>, e: Entry)
    ensures PutAll(es + [e]) == PutAll(es) + Put(e)
  {
    hide Put;
    if es == [] {
      assert es + [e] == [e] && [e][1..] == [];
      assert PutAll([]) + Put(e) == Put(e) == Put(e) + PutAll([]);
    } else {
      assert (es + [e])[1..] == es[1..] + [e];
      PutSnoc(es[1..], e);
    }
  }

  /** An answer that does not stop the handshake: no abort, and no contents too long for their length field */
  predicate Fine(a: Answer) {
    a.Omit? || (a.Include? && |a.contents| < 0x1_0000)
  }

  function Below(n: nat): (s: set<nat>)
    ensures forall i :: i in s <==> 0 <= i < n
  {
    if n == 0 then {} else Below(n - 1) + {n - 1}
  }

  /** The positions in the stack whose bit is set */
  ghost function Positions(bits: nat, n: nat): set<nat> {
    set i | 0 <= i < n && Bit(bits, i)
  }

  /** hs->custom_extensions with the stack of the role: the set is `sent` for a client and `received` for a server. */
  class Handshake {
    const server: bool
    const stack: seq<nat>
    const builtIn: set<nat>
    var bits: nat

    ghost predicate Valid()
      reads this
    {
      IsRegistry(stack, builtIn) && bits < Pow2(16)
    }

    constructor (server: bool, stack: seq<nat>, builtIn: set<nat>)
      requires IsRegistry(stack, builtIn)
      ensures Valid() && this.server == server && this.stack == stack && this.builtIn == builtIn && bits == 0
    {
      this.server := server;
      this.stack := stack;
      this.builtIn := builtIn;
      bits := 0;
    }

    /** The positions an extension is asked for: all by a client, those received by a server */
    ghost function Asked(): set<nat>
      reads this
    {
      if server then Positions(bits, |stack|) else Below(|stack|)
    }

    /** custom_ext_add_hello; a client starts with an empty set. */
    method AddHello(answers: seq<Answer>) returns (ok: bool, out: seq<byte>)
      requires Valid() && |answers| == |stack| && (!server ==> bits == 0)
      modifies this
      ensures Valid()
      ensures ok == forall i | 0 <= i < |stack| && i in old(Asked()) :: Fine(answers[i])
      ensures ok ==> out == PutAll(Chosen(stack, answers, old(Asked()), |stack|))
      ensures server ==> bits == old(bits)
      ensures !server && ok ==> Positions(bits, MAX_NUM) == set i | 0 <= i < |stack| && answers[i].Include?
    {
      hide Bit, Or, And, Shl, Pow2, Put, PutAll;
      out := [];
      ghost var asked := Asked();
      assert !server ==> forall j | 0 <= j < MAX_NUM :: !Bit(bits, j) by { NoBits(); }
      assert PutAll([]) == [] by { PutNone(); }
      for i := 0 to |stack|
        invariant Valid() && (server ==> bits == old(bits))
        invariant forall j | 0 <= j < i && j in asked :: Fine(answers[j])
        invariant out == PutAll(Chosen(stack, answers, asked, i))
        invariant !server ==> forall j | 0 <= j < MAX_NUM :: Bit(bits, j) <==> j < i && answers[j].Include?
      {
        TestBit(bits, i);
        if server && And(bits, Shl(1, i, 32)) == 0 {
          continue;
        }
        match answers[i] {
          case Include(contents) =>
            if |contents| > 0xffff {
              return false, out;
            }
            PutSnoc(Chosen(stack, answers, asked, i), Entry(stack[i], contents));
            out := out + Put(Entry(stack[i], contents));
            if !server {
              assert And(bits, Shl(1, i, 32)) == 0;
              forall j | 0 <= j < MAX_NUM ensures Bit(Or(bits, Shl(1, i, 32)), j) <==> Bit(bits, j) || j == i {
                SetBit(bits, i, j);
              }
              SetBit(bits, i, 0);
              bits := Or(bits, Shl(1, i, 32));
            }
          case Omit =>
          case Abort =>
            return false, out;
        }
      }
      ok := true;
    }

    /** custom_ext_parse_serverhello; `accepts` is what the parse callback answers. */
    method ParseServerHello(value: nat, accepts: bool) returns (ok: bool)
      requires Valid()
      ensures ok == (ClientKnows(stack, bits, value) && accepts)
    {
      var found := Find(stack, value);
      if found.None? {
        return false;
      }
      TestBit(bits, found.value);
      if And(bits, Shl(1, found.value, 32)) == 0 {
        return false;
      }
      ok := accepts;
    }

    /** custom_ext_parse_clienthello. The assertion that the bit is not set yet is the precondition. */
    method ParseClientHello(value: nat, accepts: bool) returns (ok: bool)
      requires Valid()
      requires var i := IndexOf(stack, value); i.Some? ==> !Bit(bits, i.value)
      modifies this
      ensures Valid()
      ensures ok == (value !in stack || accepts)
      ensures forall j | 0 <= j < MAX_NUM :: Bit(bits, j) <==> Bit(old(bits), j) || IndexOf(stack, value) == Some(j)
    {
      hide Bit, Or, And, Shl, Pow2;
      var found := Find(stack, value);
      if found.None? {
        return true;
      }
      var index := found.value;
      TestBit(bits, index);
      assert And(bits, Shl(1, index, 32)) == 0;
      forall j | 0 <= j < MAX_NUM ensures Bit(Or(bits, Shl(1, index, 32)), j) <==> Bit(bits, j) || j == index {
        SetBit(bits, index, j);
      }
      SetBit(bits, index, 0);
      bits := Or(bits, Shl(1, index, 32));
      ok := accepts;
    }

    /**
      * The loop of ssl_scan_clienthello_tlsext over the extensions that the library does not handle itself.
      * A hello with a repeated type has been refused before.
      */
    method ScanClientHello(hello: seq<Entry>, accepts: seq<bool>) returns (ok: bool)
      requires Valid() && |accepts| == |hello|
      requires forall i, j | 0 <= i < j < |hello| :: hello[i].kind != hello[j].kind
      modifies this
      ensures Valid()
      ensures ok == forall i | 0 <= i < |hello| && hello[i].kind in stack :: accepts[i]
      ensures ok ==> Received(bits, stack, hello)
    {
      hide Bit;
      bits := 0;
      assert forall j | 0 <= j < MAX_NUM :: !Bit(bits, j) by { NoBits(); }
      for n := 0 to |hello|
        invariant Valid()
        invariant forall i | 0 <= i < n && hello[i].kind in stack :: accepts[i]
        invariant forall j | 0 <= j < MAX_NUM :: Bit(bits, j) <==> exists i :: 0 <= i < n && IndexOf(stack, hello[i].kind) == Some(j)
      {
        ghost var before := bits;
        if hello[n].kind in builtIn {
          assert hello[n].kind !in stack;
          continue;
        }
        ok := ParseClientHello(hello[n].kind, accepts[n]);
        if !ok {
          return;
        }
      }
      forall j | 0 <= j < |stack| ensures Bit(bits, j) <==> HasKind(hello, stack[j]) {
        if HasKind(hello, stack[j]) {
          var i :| 0 <= i < |hello| && hello[i].kind == stack[j];
          UniqueIndex(stack, builtIn, j);
          assert IndexOf(stack, hello[i].kind) == Some(j);
        }
      }
      ok := true;
    }
  }

  lemma NoBits()
    ensures forall j | 0 <= j < MAX_NUM :: !Bit(0, j)
  {
    forall j | 0 <= j < MAX_NUM ensures !Bit(0, j) {
      ZeroBit(j);
    }
  }

  lemma PutNone()
    ensures PutAll([]) == []
  {
  }

  lemma UniqueIndex(stack: seq<nat>, builtIn: set<nat>, i: nat)
    requires IsRegistry(stack, builtIn) && i < |stack|
    ensures IndexOf(stack, stack[i]) == Some(i)
  {
    FirstIs(stack, stack[i], i);
  }

  /** The client has registered the type and sent it. */
  predicate ClientKnows(stack: seq<nat>, bits: nat, value: nat) {
    var i := IndexOf(stack, value);
    i.Some? && Bit(bits, i.value)
  }

  predicate HasKind(es: seq<Entry>, kind: nat) {
    exists e <- es :: e.kind == kind
  }

  /** The set tells which of the registered types are in the hello. */
  ghost predicate Received(bits: nat, stack: seq<nat>, hello: seq<Entry>) {
    forall j | 0 <= j < |stack| :: Bit(bits, j) <==> HasKind(hello, stack[j])
  }

  // The echo

  /** What a client puts in its hello for its custom extensions */
  function Offered(stack: seq<nat>, answers: seq<Answer>): seq<Entry>
    requires |stack| == |answers|
  {
    Chosen(stack, answers, Below(|stack|), |stack|)
  }

  /** What a server puts in its hello for its custom extensions */
  ghost function Echoed(stack: seq<nat>, answers: seq<Answer>, received: nat): seq<Entry>
    requires |stack| == |answers|
  {
    Chosen(stack, answers, Positions(received, |stack|), |stack|)
  }

  /** The state of a client after AddHello, of its hello, and of a server after ScanClientHello */
  ghost predicate HelloRead(
    builtIn: set<nat>, clientStack: seq<nat>, clientAnswers: seq<Answer>, sent: nat,
    hello: seq<Entry>, others: seq<Entry>, serverStack: seq<nat>, received: nat)
  {
    && IsRegistry(clientStack, builtIn) && IsRegistry(serverStack, builtIn)
    && |clientAnswers| == |clientStack|
    && Positions(sent, MAX_NUM) == (set i | 0 <= i < |clientStack| && clientAnswers[i].Include?)
    && multiset(hello) == multiset(Offered(clientStack, clientAnswers)) + multiset(others)
    && Received(received, serverStack, hello)
  }

  /**
    * Whatever two sides have registered and their callbacks answer: of the custom extensions a server puts in
    * its hello after reading the client's, the client accepts exactly those it offered, and any other it gets
    * back comes from the rest of its hello. So it accepts all when the types in the rest of its hello are ones
    * that neither side can register.
    */
  lemma EchoAccepted(
    builtIn: set<nat>, clientStack: seq<nat>, clientAnswers: seq<Answer>, sent: nat,
    hello: seq<Entry>, others: seq<Entry>, serverStack: seq<nat>, serverAnswers: seq<Answer>, received: nat, e: Entry)
    requires HelloRead(builtIn, clientStack, clientAnswers, sent, hello, others, serverStack, received)
    requires |serverAnswers| == |serverStack| && e in Echoed(serverStack, serverAnswers, received)
    ensures ClientKnows(clientStack, sent, e.kind) <==> HasKind(Offered(clientStack, clientAnswers), e.kind)
    ensures ClientKnows(clientStack, sent, e.kind) || HasKind(others, e.kind)
    ensures (forall o <- others :: o.kind in builtIn) ==> ClientKnows(clientStack, sent, e.kind)
  {
    hide Bit, ClientKnows, Offered;
    KnownIffSent(builtIn, clientStack, clientAnswers, sent, e.kind);
    var j :| 0 <= j < |serverStack| && j in Positions(received, |serverStack|) && e.kind == serverStack[j];
    var h :| h in hello && h.kind == serverStack[j];
    assert h in multiset(hello);
    assert h in Offered(clientStack, clientAnswers) || h in others;
  }

  lemma KnownIffSent(builtIn: set<nat>, stack: seq<nat>, answers: seq<Answer>, sent: nat, value: nat)
    requires IsRegistry(stack, builtIn) && |answers| == |stack|
    requires Positions(sent, MAX_NUM) == (set i | 0 <= i < |stack| && answers[i].Include?)
    ensures ClientKnows(stack, sent, value) <==> HasKind(Offered(stack, answers), value)
  {
    hide Bit;
    var everything := Below(|stack|);
    if ClientKnows(stack, sent, value) {
      var i := IndexOf(stack, value).value;
      assert i in Positions(sent, MAX_NUM);
      ChosenHas(stack, answers, everything, |stack|, i);
    }
    if exists c <- Chosen(stack, answers, everything, |stack|) :: c.kind == value {
      var c :| c in Chosen(stack, answers, everything, |stack|) && c.kind == value;
      var i :| 0 <= i < |stack| && answers[i].Include? && c == Entry(stack[i], answers[i].contents);
      assert i in Positions(sent, MAX_NUM);
      UniqueIndex(stack, builtIn, i);
    }
  }

  /** A type of the GREASE kind, without contents */
  const GREASE := Entry(0x1a1a, [])

  /**
    * A client that has registered nothing sends a reserved (GREASE) type, which a server has registered. The server
    * reads the hello and echoes the type, and the client refuses it.
    */
  lemma ForeignTypeRefused()
    ensures HelloRead({}, [], [], 0, [GREASE], [GREASE], [GREASE.kind], 1)
    ensures GREASE in Echoed([GREASE.kind], [Include([])], 1)
    ensures !ClientKnows([], 0, GREASE.kind)
  {
    assert GREASE in [GREASE];
    assert Bit(1, 0) && 0 in Positions(1, 1);
    forall i ensures i !in Positions(0, MAX_NUM) {
      if 0 <= i {
        ZeroBit(i);
      }
    }
    ChosenHas([GREASE.kind], [Include([])], Positions(1, 1), 1, 0);
  }
}
