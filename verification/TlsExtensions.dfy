/** TLS extension blocks, and the parser that picks the known types out of one (ssl_parse_extensions in handshake.cc). */
module TlsExtensions {
  import opened Bits
  import opened Bytes

  /** One extension of a block: its type and its contents */
  datatype Entry = Entry(kind: nat, data: seq<byte>)
  {
    /** Both the type and the length of the contents are 16 bits wide. */
    predicate Valid() {
      kind < 0x1_0000 && |data| < 0x1_0000
    }
  }

  function Put(e: Entry): seq<byte> {
    ToBigEndian(e.kind, 2) + ToBigEndian(|e.data|, 2) + e.data
  }

  function PutAll(es: seq<Entry>): seq<byte> {
    if es == [] then [] else Put(es[0]) + PutAll(es[1..])
  }

  /** CBS_get_u16 of the type and CBS_get_u16_length_prefixed of the contents; and what is left */
  function Get(bs: seq<byte>): (r: Option<(Entry, seq<byte>)>)
    ensures r.Some? ==> r.value.0.Valid() && |r.value.1| < |bs|
  {
    if |bs| < 4 then None
    else
      SixteenBits();
      var size := BigEndian(bs[2..4]);
      if |bs| - 4 < size then None
      else Some((Entry(BigEndian(bs[..2]), bs[4..4 + size]), bs[4 + size..]))
  }

  lemma SixteenBits()
    ensures Pow2(16) == 0x1_0000
  {
    Pow2Step8(8);
    Pow2Step8(0);
  }

  /** All entries of a block, when it is well formed */
  function GetAll(bs: seq<byte>): (r: Option<seq<Entry>>)
    ensures r.Some? ==> forall e <- r.value :: e.Valid()
    decreases |bs|
  {
    if bs == [] then Some([])
    else
      match Get(bs)
      case None => None
      case Some((e, rest)) =>
        match GetAll(rest)
        case None => None
        case Some(es) => Some([e] + es)
  }

  lemma GetPut(e: Entry, rest: seq<byte>)
    requires e.Valid()
    ensures Get(Put(e) + rest) == Some((e, rest))
  {
    hide ToBigEndian, BigEndian;
    SixteenBits();
    BigEndianRoundTrip(e.kind, 2);
    BigEndianRoundTrip(|e.data|, 2);
    var bs := Put(e) + rest;
    assert bs[..2] == ToBigEndian(e.kind, 2) && bs[2..4] == ToBigEndian(|e.data|, 2);
    assert bs[4..4 + |e.data|] == e.data && bs[4 + |e.data|..] == rest;
  }

  lemma PutGet(bs: seq<byte>)
    requires Get(bs).Some?
    ensures bs == Put(Get(bs).value.0) + Get(bs).value.1
  {
    hide ToBigEndian, BigEndian;
    var (e, rest) := Get(bs).value;
    SixteenBits();
    BigEndianRoundTrip(e.kind, 2);
    BigEndianRoundTrip(|e.data|, 2);
    BigEndianInjective(ToBigEndian(e.kind, 2), bs[..2]);
    BigEndianInjective(ToBigEndian(|e.data|, 2), bs[2..4]);
    assert bs == bs[..2] + bs[2..4] + e.data + rest;
  }

  /** Blocks and lists of entries stand for each other. */
  lemma {:induction false} BlockRoundTrip(es: seq<Entry>, bs: seq<byte>)
    requires forall e <- es :: e.Valid()
    ensures GetAll(bs) == Some(es) <==> bs == PutAll(es)
    decreases |bs|, |es|
  {
    hide Get, Put;
    if es != [] {
      var tail := PutAll(es[1..]);
      GetPut(es[0], tail);
      assert [es[0]] + es[1..] == es;
      if bs == PutAll(es) {
        assert Put(es[0]) + tail != [] by { PutSize(es[0]); }
        BlockRoundTrip(es[1..], tail);
      }
      if GetAll(bs) == Some(es) {
        PutGet(bs);
        assert es[1..] == GetAll(Get(bs).value.1).value;
        BlockRoundTrip(es[1..], Get(bs).value.1);
      }
    }
  }

  lemma PutSize(e: Entry)
    ensures |Put(e)| == 4 + |e.data|
  {
  }

  // ssl_parse_extensions

  datatype Alert = DECODE_ERROR | UNSUPPORTED_EXTENSION | ILLEGAL_PARAMETER

  /** The position of the first entry of `types` equal to kind */
  function IndexOf(types: seq<nat>, kind: nat): (i: Option<nat>)
    ensures i.Some? ==> i.value < |types| && types[i.value] == kind && kind !in types[..i.value]
    ensures i.None? ==> kind !in types
  {
    if types == [] then None
    else if types[0] == kind then Some(0)
    else
      match IndexOf(types[1..], kind)
      case None => None
      case Some(i) => assert types[..i + 1] == [types[0]] + types[1..][..i]; Some(i + 1)
  }

  /** What goes wrong first, reading on after the known types in `seen`; None when nothing does */
  function Problem(bs: seq<byte>, types: seq<nat>, ignoreUnknown: bool, seen: set<nat>): Option<Alert>
    decreases |bs|
  {
    if bs == [] then None
    else
      match Get(bs)
      case None => Some(DECODE_ERROR)
      case Some((e, rest)) =>
        if e.kind !in types then
          if ignoreUnknown then Problem(rest, types, ignoreUnknown, seen) else Some(UNSUPPORTED_EXTENSION)
        else if e.kind in seen then Some(ILLEGAL_PARAMETER)
        else Problem(rest, types, ignoreUnknown, seen + {e.kind})
  }

  /** Unknown types only where they are ignored, and no known type twice */
  predicate Acceptable(es: seq<Entry>, types: seq<nat>, ignoreUnknown: bool) {
    && (forall e <- es :: ignoreUnknown || e.kind in types)
    && forall i, j | 0 <= i < j < |es| && es[i].kind in types :: es[i].kind != es[j].kind
  }

  /** The contents given for a type, by the first entry of that type */
  function Lookup(es: seq<Entry>, kind: nat): (d: Option<seq<byte>>)
    ensures d.Some? ==> Entry(kind, d.value) in es
    ensures d.None? ==> forall e <- es :: e.kind != kind
  {
    if es == [] then None else if es[0].kind == kind then Some(es[0].data) else Lookup(es[1..], kind)
  }

  /** What is reported for position i of `types`: a type listed twice is reported at its first position only. */
  function Report(es: seq<Entry>, types: seq<nat>, i: nat): Option<seq<byte>>
    requires i < |types|
  {
    if types[i] in types[..i] then None else Lookup(es, types[i])
  }

  lemma {:induction false} ProblemFrom(bs: seq<byte>, types: seq<nat>, ignoreUnknown: bool, seen: set<nat>)
    ensures Problem(bs, types, ignoreUnknown, seen).None? <==>
              && GetAll(bs).Some? && Acceptable(GetAll(bs).value, types, ignoreUnknown)
              && forall e <- GetAll(bs).value :: e.kind in types ==> e.kind !in seen
    decreases |bs|
  {
    hide Get;
    if bs != [] && Get(bs).Some? {
      var (e, rest) := Get(bs).value;
      ProblemFrom(rest, types, ignoreUnknown, if e.kind in types then seen + {e.kind} else seen);
      if GetAll(rest).Some? {
        AcceptableCons(e, GetAll(rest).value, types, ignoreUnknown);
        var es := [e] + GetAll(rest).value;
        assert forall x <- es :: x == e || x in GetAll(rest).value;
        assert e in es && forall x <- GetAll(rest).value :: x in es;
      }
    }
  }

  lemma AcceptableCons(e: Entry, es: seq<Entry>, types: seq<nat>, ignoreUnknown: bool)
    ensures Acceptable([e] + es, types, ignoreUnknown) <==>
              && (ignoreUnknown || e.kind in types) && Acceptable(es, types, ignoreUnknown)
              && (e.kind in types ==> forall x <- es :: x.kind != e.kind)
  {
    var all := [e] + es;
    assert all[0] == e && all[1..] == es;
    if Acceptable(all, types, ignoreUnknown) {
      assert e in all;
      forall x <- es ensures x in all && (e.kind in types ==> x.kind != e.kind) {
        var j :| 0 <= j < |es| && es[j] == x;
        assert all[j + 1] == x;
      }
      forall i, j | 0 <= i < j < |es| && es[i].kind in types ensures es[i].kind != es[j].kind {
        assert all[i + 1] == es[i] && all[j + 1] == es[j];
      }
    }
    if (ignoreUnknown || e.kind in types) && Acceptable(es, types, ignoreUnknown)
       && (e.kind in types ==> forall x <- es :: x.kind != e.kind) {
      forall i, j | 0 <= i < j < |all| && all[i].kind in types ensures all[i].kind != all[j].kind {
        assert all[j] == es[j - 1] && es[j - 1] in es;
        if i > 0 {
          assert all[i] == es[i - 1];
        }
      }
    }
  }

  /** A block is accepted if and only if it is well formed and its entries are acceptable. */
  lemma AcceptedExactly(bs: seq<byte>, types: seq<nat>, ignoreUnknown: bool)
    ensures Problem(bs, types, ignoreUnknown, {}).None? <==>
              GetAll(bs).Some? && Acceptable(GetAll(bs).value, types, ignoreUnknown)
  {
    ProblemFrom(bs, types, ignoreUnknown, {});
  }

  /** What is wrong with the entry that `bs` begins with, after the acceptable entries es; None when nothing is. */
  function NextProblem(es: seq<Entry>, bs: seq<byte>, types: seq<nat>, ignoreUnknown: bool): Option<Alert> {
    match Get(bs)
    case None => if bs == [] then None else Some(DECODE_ERROR)
    case Some((e, _)) =>
      if e.kind !in types then if ignoreUnknown then None else Some(UNSUPPORTED_EXTENSION)
      else if exists x <- es :: x.kind == e.kind then Some(ILLEGAL_PARAMETER) else None
  }

  /** The known types among the entries */
  function KnownKinds(es: seq<Entry>, types: seq<nat>): set<nat> {
    set e <- es | e.kind in types :: e.kind
  }

  lemma KnownKindsCons(e: Entry, es: seq<Entry>, types: seq<nat>)
    ensures KnownKinds([e] + es, types) == KnownKinds(es, types) + if e.kind in types then {e.kind} else {}
  {
    assert forall x <- [e] + es :: x == e || x in es;
    assert ([e] + es)[0] == e && forall x <- es :: x in [e] + es;
  }

  lemma {:induction false} ProblemAfter(es: seq<Entry>, bs: seq<byte>, types: seq<nat>, ignoreUnknown: bool, seen: set<nat>)
    requires (forall e <- es :: e.Valid() && e.kind !in seen) && Acceptable(es, types, ignoreUnknown)
    ensures Problem(PutAll(es) + bs, types, ignoreUnknown, seen)
            == Problem(bs, types, ignoreUnknown, seen + KnownKinds(es, types))
    decreases |es|
  {
    hide Get, Put, KnownKinds, Acceptable;
    if es == [] {
      assert PutAll(es) + bs == bs && seen + KnownKinds(es, types) == seen by { NoKinds(types); }
    } else {
      var e, tail := es[0], PutAll(es[1..]) + bs;
      assert PutAll(es) + bs == Put(e) + tail != [] by { PutSize(e); }
      GetPut(e, tail);
      assert [e] + es[1..] == es;
      AcceptableCons(e, es[1..], types, ignoreUnknown);
      KnownKindsCons(e, es[1..], types);
      var seen1 := if e.kind in types then seen + {e.kind} else seen;
      ProblemAfter(es[1..], bs, types, ignoreUnknown, seen1);
      assert seen1 + KnownKinds(es[1..], types) == seen + KnownKinds(es, types);
    }
  }

  lemma NoKinds(types: seq<nat>)
    ensures KnownKinds([], types) == {}
  {
  }

  /**
    * Which alert a block is refused with: that of the first entry that is malformed, of an unknown type where these are
    * not ignored, or of a known type that came before.
    */
  lemma FirstProblem(es: seq<Entry>, bs: seq<byte>, types: seq<nat>, ignoreUnknown: bool)
    requires (forall e <- es :: e.Valid()) && Acceptable(es, types, ignoreUnknown)
    requires NextProblem(es, bs, types, ignoreUnknown).Some?
    ensures Problem(PutAll(es) + bs, types, ignoreUnknown, {}) == NextProblem(es, bs, types, ignoreUnknown)
  {
    hide Get;
    ProblemAfter(es, bs, types, ignoreUnknown, {});
  }

  // The order of the entries

  function Count(es: seq<Entry>, kind: nat): nat {
    if es == [] then 0 else (if es[0].kind == kind then 1 else 0) + Count(es[1..], kind)
  }

  lemma {:induction false} CountConcat(a: seq<Entry>, b: seq<Entry>, kind: nat)
    ensures Count(a + b, kind) == Count(a, kind) + Count(b, kind)
  {
    if a == [] {
      assert a + b == b;
    } else {
      assert (a + b)[1..] == a[1..] + b;
      CountConcat(a[1..], b, kind);
    }
  }

  lemma {:induction false} CountSame(es: seq<Entry>, fs: seq<Entry>, kind: nat)
    requires multiset(es) == multiset(fs)
    ensures Count(es, kind) == Count(fs, kind)
    decreases |es|
  {
    hide Without;
    if es == [] {
      assert |fs| == |multiset(fs)| == 0;
    } else {
      assert es[0] in multiset(fs);
      var k :| 0 <= k < |fs| && fs[k] == es[0];
      RemoveAt(es, 0, kind);
      RemoveAt(fs, k, kind);
      CountSame(Without(es, 0), Without(fs, k), kind);
    }
  }

  function Without(es: seq<Entry>, k: nat): (r: seq<Entry>)
    requires k < |es|
    ensures |r| == |es| - 1
  {
    es[..k] + es[k + 1..]
  }

  lemma RemoveAt(es: seq<Entry>, k: nat, kind: nat)
    requires k < |es|
    ensures multiset(Without(es, k)) == multiset(es) - multiset{es[k]}
    ensures Count(es, kind) == Count(Without(es, k), kind) + if es[k].kind == kind then 1 else 0
  {
    hide Count;
    assert es == es[..k] + ([es[k]] + es[k + 1..]);
    CountConcat(es[..k], [es[k]] + es[k + 1..], kind);
    CountConcat([es[k]], es[k + 1..], kind);
    CountConcat(es[..k], es[k + 1..], kind);
    CountOne(es[k], kind);
  }

  lemma CountOne(e: Entry, kind: nat)
    ensures Count([e], kind) == if e.kind == kind then 1 else 0
  {
  }

  lemma {:induction false} CountOfIn(es: seq<Entry>, e: Entry)
    requires e in es
    ensures Count(es, e.kind) >= 1
  {
    if es[0] != e {
      CountOfIn(es[1..], e);
    }
  }

  lemma {:induction false} CountTwice(es: seq<Entry>, kind: nat)
    ensures Count(es, kind) >= 2 <==> exists i, j :: 0 <= i < j < |es| && es[i].kind == es[j].kind == kind
  {
    if es != [] {
      CountTwice(es[1..], kind);
      if exists i, j :: 0 <= i < j < |es| && es[i].kind == es[j].kind == kind {
        var i, j :| 0 <= i < j < |es| && es[i].kind == es[j].kind == kind;
        assert es[1..][j - 1] == es[j];
        CountOfIn(es[1..], es[j]);
        assert i > 0 ==> es[1..][i - 1] == es[i];
      }
      if Count(es, kind) >= 2 {
        if es[0].kind == kind {
          var j := PositionOf(es[1..], kind);
          assert es[0].kind == es[j + 1].kind == kind;
        } else {
          var i, j :| 0 <= i < j < |es[1..]| && es[1..][i].kind == es[1..][j].kind == kind;
          assert es[i + 1].kind == es[j + 1].kind == kind;
        }
      }
    }
  }

  lemma {:induction false} PositionOf(es: seq<Entry>, kind: nat) returns (j: nat)
    requires Count(es, kind) >= 1
    ensures j < |es| && es[j].kind == kind
  {
    if es[0].kind == kind {
      j := 0;
    } else {
      j := PositionOf(es[1..], kind);
      j := j + 1;
    }
  }

  /** The result does not depend on the order of the entries. */
  lemma OrderIndependent(es: seq<Entry>, fs: seq<Entry>, types: seq<nat>, ignoreUnknown: bool)
    requires multiset(es) == multiset(fs) && Acceptable(es, types, ignoreUnknown)
    ensures Acceptable(fs, types, ignoreUnknown)
    ensures forall i | 0 <= i < |types| :: Report(es, types, i) == Report(fs, types, i)
  {
    forall e <- fs ensures ignoreUnknown || e.kind in types {
      assert e in multiset(es);
    }
    forall i, j | 0 <= i < j < |fs| && fs[i].kind in types ensures fs[i].kind != fs[j].kind {
      CountTwice(fs, fs[i].kind);
      CountTwice(es, fs[i].kind);
      CountSame(es, fs, fs[i].kind);
    }
    forall i | 0 <= i < |types| ensures Lookup(es, types[i]) == Lookup(fs, types[i]) {
      SameLookup(es, fs, types, ignoreUnknown, types[i]);
    }
  }

  lemma SameLookup(es: seq<Entry>, fs: seq<Entry>, types: seq<nat>, ignoreUnknown: bool, kind: nat)
    requires multiset(es) == multiset(fs) && Acceptable(es, types, ignoreUnknown) && kind in types
    ensures Lookup(es, kind) == Lookup(fs, kind)
  {
    hide Lookup;
    var c, d := Lookup(es, kind), Lookup(fs, kind);
    if d.Some? {
      assert Entry(kind, d.value) in multiset(es);
      var j :| 0 <= j < |es| && es[j] == Entry(kind, d.value);
      var i :| 0 <= i < |es| && es[i] == Entry(kind, c.value);
    } else {
      forall e <- es ensures e.kind != kind {
        assert e in multiset(fs);
      }
    }
  }

  /** Of an acceptable block each known type is reported with the contents it has there, and as absent when it has none. */
  lemma ReportExactly(es: seq<Entry>, types: seq<nat>, ignoreUnknown: bool, i: nat, data: seq<byte>)
    requires Acceptable(es, types, ignoreUnknown) && i < |types| && types[i] !in types[..i]
    ensures Report(es, types, i) == Some(data) <==> Entry(types[i], data) in es
    ensures Report(es, types, i) == None <==> forall e <- es :: e.kind != types[i]
  {
    hide Lookup;
    var d := Lookup(es, types[i]);
    if d.Some? && Entry(types[i], data) in es {
      var j :| 0 <= j < |es| && es[j] == Entry(types[i], data);
      var k :| 0 <= k < |es| && es[k] == Entry(types[i], d.value);
    }
  }

  lemma {:induction false} LookupSnoc(es: seq<Entry>, e: Entry, kind: nat)
    ensures Lookup(es + [e], kind)
            == if Lookup(es, kind).Some? then Lookup(es, kind) else if e.kind == kind then Some(e.data) else None
  {
    if es == [] {
      assert es + [e] == [e];
    } else {
      assert (es + [e])[1..] == es[1..] + [e];
      LookupSnoc(es[1..], e, kind);
    }
  }

  /** The known types among the entries read so far */
  function Seen(es: seq<Entry>, types: seq<nat>): set<nat> {
    set k | k in types && Lookup(es, k).Some?
  }

  lemma SeenSnoc(es: seq<Entry>, e: Entry, types: seq<nat>)
    ensures e.kind in types ==> Seen(es + [e], types) == Seen(es, types) + {e.kind}
    ensures e.kind !in types ==> Seen(es + [e], types) == Seen(es, types)
  {
    hide Lookup;
    forall k | k in types ensures Lookup(es + [e], k).Some? <==> Lookup(es, k).Some? || e.kind == k {
      LookupSnoc(es, e, k);
    }
  }

  /** The table tells of each type what the entries say. */
  predicate Reported(es: seq<Entry>, types: seq<nat>, present: seq<bool>, data: seq<seq<byte>>) {
    && |present| == |data| == |types|
    && forall i | 0 <= i < |types| ::
         var r := Report(es, types, i);
         present[i] == r.Some? && data[i] == if r.Some? then r.value else []
  }

  lemma ReportedStep(es: seq<Entry>, e: Entry, types: seq<nat>, present: seq<bool>, data: seq<seq<byte>>, at: nat)
    requires Reported(es, types, present, data)
    requires at <= |types| && e.kind !in types[..at] && (at < |types| ==> types[at] == e.kind && !present[at])
    ensures at == |types| ==> Reported(es + [e], types, present, data)
    ensures at < |types| ==> Reported(es + [e], types, present[at := true], data[at := e.data])
  {
    hide Lookup;
    forall i | 0 <= i < |types|
      ensures Report(es + [e], types, i) == if i == at then Some(e.data) else Report(es, types, i)
    {
      LookupSnoc(es, e, types[i]);
      if i > at {
        assert types[at] in types[..i];
      }
    }
  }

  /**
    * ssl_parse_extensions. `present` and `data` are what it stores through the pointers of the table of
    * types.
    */
  method ParseExtensions(cbs: seq<byte>, types: seq<nat>, ignoreUnknown: bool)
    returns (ok: bool, alert: Alert, present: seq<bool>, data: seq<seq<byte>>)
    ensures ok == Problem(cbs, types, ignoreUnknown, {}).None?
    ensures !ok ==> Problem(cbs, types, ignoreUnknown, {}) == Some(alert)
    ensures ok ==> GetAll(cbs).Some? && Reported(GetAll(cbs).value, types, present, data)
  {
    hide Get, Acceptable, Report, Seen, Lookup;
    AcceptedExactly(cbs, types, ignoreUnknown);
    alert := DECODE_ERROR;
    present := seq(|types|, _ => false);
    data := seq(|types|, _ => []);
    var copy := cbs;
    ghost var done: seq<Entry> := [];
    NothingRead(types, present, data);
    assert GetAll(cbs).Some? ==> [] + GetAll(cbs).value == GetAll(cbs).value;
    while |copy| != 0
      invariant Reported(done, types, present, data)
      invariant Problem(cbs, types, ignoreUnknown, {}) == Problem(copy, types, ignoreUnknown, Seen(done, types))
      invariant GetAll(copy).Some? ==> GetAll(cbs) == Some(done + GetAll(copy).value)
      decreases |copy|
    {
      var got := Get(copy);
      if got.None? {
        return false, DECODE_ERROR, present, data;
      }
      var (e, rest) := got.value;
      assert GetAll(rest).Some? ==> done + ([e] + GetAll(rest).value) == done + [e] + GetAll(rest).value;
      var i := 0;
      while i < |types| && types[i] != e.kind
        invariant i <= |types| && e.kind !in types[..i]
      {
        i := i + 1;
      }
      SeenSnoc(done, e, types);
      copy := rest;
      if i == |types| {
        if !ignoreUnknown {
          return false, UNSUPPORTED_EXTENSION, present, data;
        }
        ReportedStep(done, e, types, present, data, i);
        done := done + [e];
        continue;
      }
      PresentIsSeen(done, types, present, data, i);
      if present[i] {
        return false, ILLEGAL_PARAMETER, present, data;
      }
      ReportedStep(done, e, types, present, data, i);
      done := done + [e];
      present := present[i := true];
      data := data[i := e.data];
    }
    assert done + [] == done;
    ok := true;
  }

  lemma NothingRead(types: seq<nat>, present: seq<bool>, data: seq<seq<byte>>)
    requires |present| == |data| == |types| && forall i | 0 <= i < |types| :: !present[i] && data[i] == []
    ensures Seen([], types) == {} && Reported([], types, present, data)
  {
  }

  lemma PresentIsSeen(es: seq<Entry>, types: seq<nat>, present: seq<bool>, data: seq<seq<byte>>, i: nat)
    requires Reported(es, types, present, data) && i < |types| && types[i] !in types[..i]
    ensures present[i] <==> types[i] in Seen(es, types)
  {
  }
}
