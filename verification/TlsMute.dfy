/** The muting tunnel of the fault-injecting proxy: it reads the TLS records a
    client sends, and once the client's first request record has been handed
    upstream it drops every byte of the reply. A record is a header of 5 bytes
    (type, version, length: section 5.1 of RFC 8446, section 6.2.1 of RFC 5246)
    and as many bytes as the length says. */
module TlsMute {
  import opened Wrappers

  const CHANGE_CIPHER_SPEC: Byte := 0x14
  const HANDSHAKE: Byte := 0x16
  const APPLICATION_DATA: Byte := 0x17

  // ----- Records -----

  /** The length of the first record of `s`, 0 while it is incomplete. */
  function RecordLength(s: seq<Byte>): (n: nat)
    ensures n <= |s| && (n != 0 ==> 5 <= n)
  {
    if |s| < 5 then 0
    else
      var size: nat := 0x100 * s[3] as int + s[4] as int;
      if |s| < 5 + size then 0 else 5 + size
  }

  /** The types of the complete records of `s`, in order. */
  function Kinds(s: seq<Byte>): seq<Byte>
    decreases |s|
  {
    if RecordLength(s) == 0 then [] else [s[0]] + Kinds(s[RecordLength(s)..])
  }

  /** What is left behind them. */
  function Rest(s: seq<Byte>): (r: seq<Byte>)
    ensures RecordLength(r) == 0
    decreases |s|
  {
    if RecordLength(s) == 0 then s else Rest(s[RecordLength(s)..])
  }

  /** Bytes that arrive later extend the records, never rewrite them. */
  lemma {:induction false} RecordsOfConcat(a: seq<Byte>, b: seq<Byte>)
    ensures Kinds(a + b) == Kinds(a) + Kinds(Rest(a) + b)
    ensures Rest(a + b) == Rest(Rest(a) + b)
    decreases |a|
  {
    var n := RecordLength(a);
    if n == 0 {
      assert Kinds(a) == [];
    } else {
      assert RecordLength(a + b) == n && (a + b)[0] == a[0];
      assert (a + b)[n..] == a[n..] + b;
      RecordsOfConcat(a[n..], b);
    }
  }

  // ----- Records as they are sent -----

  type Body = s: seq<Byte> | |s| < 0x1_0000

  datatype Record = Record(kind: Byte, major: Byte, minor: Byte, body: Body)

  /** The layout of the standard: the length is two bytes, the more significant first. */
  function Encode(r: Record): seq<Byte> {
    [r.kind, r.major, r.minor, |r.body| / 0x100, |r.body| % 0x100] + r.body
  }

  function EncodeAll(rs: seq<Record>): seq<Byte> {
    if rs == [] then [] else Encode(rs[0]) + EncodeAll(rs[1..])
  }

  function KindsOf(rs: seq<Record>): seq<Byte> {
    seq(|rs|, i requires 0 <= i < |rs| => rs[i].kind)
  }

  lemma FirstRecord(r: Record, rest: seq<Byte>)
    ensures RecordLength(Encode(r) + rest) == |Encode(r)| != 0 && (Encode(r) + rest)[0] == r.kind
    ensures (Encode(r) + rest)[|Encode(r)|..] == rest
  {
  }

  lemma PartOfRecord(r: Record, n: nat)
    requires n < |Encode(r)|
    ensures RecordLength(Encode(r)[..n]) == 0
  {
  }

  /** Whatever records were sent whole, and however far the next one has come: exactly those are read,
      and exactly that part is left. */
  lemma {:induction false} SentRecordsAreRead(rs: seq<Record>, next: Record, n: nat)
    requires n < |Encode(next)|
    ensures Kinds(EncodeAll(rs) + Encode(next)[..n]) == KindsOf(rs)
    ensures Rest(EncodeAll(rs) + Encode(next)[..n]) == Encode(next)[..n]
  {
    hide Encode, RecordLength;
    var part := Encode(next)[..n];
    PartOfRecord(next, n);
    if rs == [] {
      assert EncodeAll(rs) + part == part;
    } else {
      SentRecordsAreRead(rs[1..], next, n);
      assert EncodeAll(rs) + part == Encode(rs[0]) + (EncodeAll(rs[1..]) + part);
      FirstRecord(rs[0], EncodeAll(rs[1..]) + part);
      assert KindsOf(rs) == [rs[0].kind] + KindsOf(rs[1..]);
    }
  }

  /** And every stream is some records sent whole and a part of another. */
  lemma {:induction false} EveryStreamIsRecords(s: seq<Byte>) returns (rs: seq<Record>, next: Record, n: nat)
    ensures n < |Encode(next)| && s == EncodeAll(rs) + Encode(next)[..n]
    decreases |s|
  {
    hide Encode, RecordLength;
    var size := RecordLength(s);
    if size != 0 {
      var first := FirstOf(s);
      rs, next, n := EveryStreamIsRecords(s[size..]);
      assert ([first] + rs)[1..] == rs;
      assert Encode(first) + s[size..] == EncodeAll([first] + rs) + Encode(next)[..n];
      rs := [first] + rs;
    } else {
      rs, n := [], |s|;
      next := Begun(s);
    }
  }

  /** The record at the front of `s`. */
  function FirstOf(s: seq<Byte>): (r: Record)
    requires RecordLength(s) != 0
    ensures s == Encode(r) + s[RecordLength(s)..]
  {
    LengthInTwoBytes(s[3], s[4]);
    Record(s[0], s[1], s[2], s[5..RecordLength(s)])
  }

  /** A record that begins with `s`: what is missing of its header and its body is zeros. */
  function Begun(s: seq<Byte>): (r: Record)
    requires RecordLength(s) == 0
    ensures |s| < |Encode(r)| && s == Encode(r)[..|s|]
  {
    var h := if |s| < 5 then s + seq(5 - |s|, _ => 0) else s;
    var size: nat := 0x100 * h[3] as int + h[4] as int;
    LengthInTwoBytes(h[3], h[4]);
    assert |h| < 5 + size || |s| < 5;
    Record(h[0], h[1], h[2], Padded(h[5..], size))
  }

  function Padded(s: seq<Byte>, n: nat): (r: seq<Byte>)
    requires |s| <= n
    ensures |r| == n && r[..|s|] == s
  {
    s + seq(n - |s|, _ => 0)
  }

  lemma LengthInTwoBytes(high: Byte, low: Byte)
    ensures var n := 0x100 * high as int + low as int; n < 0x1_0000 && n / 0x100 == high && n % 0x100 == low
  {
  }

  // ----- What the records say -----

  predicate CcsAt(kinds: seq<Byte>, i: nat) {
    i < |kinds| && kinds[i] == CHANGE_CIPHER_SPEC
  }

  ghost predicate HasCcs(kinds: seq<Byte>) {
    exists i: nat :: CcsAt(kinds, i)
  }

  predicate IsFinished(kind: Byte) {
    kind == HANDSHAKE || kind == APPLICATION_DATA
  }

  ghost predicate FinishedAt(kinds: seq<Byte>, j: nat) {
    j < |kinds| && IsFinished(kinds[j]) && HasCcs(kinds[..j])
  }

  /** A ChangeCipherSpec and a Finished behind it: TLS 1.2 sends it as handshake, TLS 1.3 as application data. */
  ghost predicate HasFinished(kinds: seq<Byte>) {
    exists j: nat :: FinishedAt(kinds, j)
  }

  ghost predicate RequestAt(kinds: seq<Byte>, k: nat) {
    k < |kinds| && kinds[k] == APPLICATION_DATA && HasFinished(kinds[..k])
  }

  /** A ChangeCipherSpec, a Finished behind it, and application data behind that. */
  ghost predicate HasRequest(kinds: seq<Byte>) {
    exists k: nat :: RequestAt(kinds, k)
  }

  lemma Appended(kinds: seq<Byte>, kind: Byte)
    ensures HasCcs(kinds + [kind]) <==> HasCcs(kinds) || kind == CHANGE_CIPHER_SPEC
    ensures HasFinished(kinds + [kind]) <==> HasFinished(kinds) || (IsFinished(kind) && HasCcs(kinds))
    ensures HasRequest(kinds + [kind]) <==> HasRequest(kinds) || (kind == APPLICATION_DATA && HasFinished(kinds))
  {
    var more, n := kinds + [kind], |kinds|;
    assert more[n] == kind && more[..n] == kinds;
    assert CcsAt(more, n) <==> kind == CHANGE_CIPHER_SPEC;
    assert forall j: nat | j < n :: CcsAt(more, j) <==> CcsAt(kinds, j);
    assert forall j | 0 <= j < n :: more[j] == kinds[j] && more[..j] == kinds[..j];
    assert FinishedAt(more, n) <==> IsFinished(kind) && HasCcs(kinds);
    assert RequestAt(more, n) <==> kind == APPLICATION_DATA && HasFinished(kinds);
    assert forall j: nat | j < n :: FinishedAt(more, j) <==> FinishedAt(kinds, j);
    assert forall j: nat | j < n :: RequestAt(more, j) <==> RequestAt(kinds, j);
  }

  lemma {:induction false} Extended(a: seq<Byte>, b: seq<Byte>)
    ensures HasCcs(a) ==> HasCcs(a + b)
    ensures HasFinished(a) ==> HasFinished(a + b)
    ensures HasRequest(a) ==> HasRequest(a + b)
    decreases |b|
  {
    if b == [] {
      assert a + b == a;
    } else {
      Extended(a, b[..|b| - 1]);
      Appended(a + b[..|b| - 1], b[|b| - 1]);
      assert a + b == (a + b[..|b| - 1]) + [b[|b| - 1]];
    }
  }

  // ----- The scanner -----

  datatype State = State(tls: bool, buf: seq<Byte>, afterCcs: bool, skipFinished: bool, on: bool)

  const FRESH := State(true, [], false, false, false)

  /** The flags after one record of type `kind`. */
  function Saw(st: State, kind: Byte): State {
    if kind == CHANGE_CIPHER_SPEC then st.(afterCcs := true)
    else if st.afterCcs && kind == APPLICATION_DATA && !st.skipFinished then st.(skipFinished := true)
    else if st.afterCcs && kind == HANDSHAKE then st.(skipFinished := true)
    else if st.afterCcs && kind == APPLICATION_DATA then st.(on := true)
    else st
  }

  /** Takes complete records off the buffer until none is left or one turns the mute on. */
  function Scan(st: State): State
    decreases |st.buf|
  {
    var n := RecordLength(st.buf);
    if st.on || n == 0 then st
    else Scan(Saw(st.(buf := st.buf[n..]), st.buf[0]))
  }

  function AfterSending(st: State, chunk: seq<Byte>): State {
    if st.on then st
    else if !st.tls then st.(on := true)
    else Scan(st.(buf := st.buf + chunk))
  }

  class Mute {
    const tls: bool
    var buf: seq<Byte>
    var afterCcs: bool
    var skipFinished: bool
    var on: bool

    function Now(): State
      reads this
    {
      State(tls, buf, afterCcs, skipFinished, on)
    }

    constructor (tls: bool)
      ensures Now() == State(tls, [], false, false, false)
    {
      this.tls, buf, afterCcs, skipFinished, on := tls, [], false, false, false;
    }

    method ClientSent(chunk: seq<Byte>)
      modifies this
      ensures Now() == AfterSending(old(Now()), chunk)
    {
      if on {
        return;
      }
      if !tls {
        on := true;
        return;
      }
      buf := buf + chunk;
      while |buf| >= 5
        invariant !on && Scan(Now()) == AfterSending(old(Now()), chunk)
        decreases |buf|
      {
        var kind, size := buf[0], 0x100 * buf[3] as int + buf[4] as int;
        if |buf| < 5 + size {
          break;
        }
        buf := buf[5 + size..];
        if kind == 0x14 {
          afterCcs := true;
        } else if afterCcs && kind == 0x17 && !skipFinished {
          skipFinished := true;
        } else if afterCcs && kind == 0x16 {
          skipFinished := true;
        } else if afterCcs && kind == 0x17 {
          on := true;
          return;
        }
      }
    }
  }

  // ----- What the scanner has understood -----

  /** The scanner has read exactly the complete records of `stream`. */
  ghost predicate Reads(st: State, stream: seq<Byte>) {
    st.tls && (st.on <==> HasRequest(Kinds(stream))) &&
    (!st.on ==> st.buf == Rest(stream)
                && (st.afterCcs <==> HasCcs(Kinds(stream)))
                && (st.skipFinished <==> HasFinished(Kinds(stream))))
  }

  /** The flags as they stand behind `kinds`, with `buf` still to be scanned. */
  ghost predicate Behind(st: State, kinds: seq<Byte>) {
    (st.on <==> HasRequest(kinds)) &&
    (!st.on ==> (st.afterCcs <==> HasCcs(kinds)) && (st.skipFinished <==> HasFinished(kinds)))
  }

  lemma {:induction false} ScanReads(st: State, kinds: seq<Byte>)
    requires Behind(st, kinds)
    ensures Behind(Scan(st), kinds + Kinds(st.buf))
    ensures Scan(st).tls == st.tls
    ensures !Scan(st).on ==> Scan(st).buf == Rest(st.buf)
    decreases |st.buf|
  {
    hide HasCcs, HasFinished, HasRequest;
    var n := RecordLength(st.buf);
    if st.on {
      Extended(kinds, Kinds(st.buf));
    } else if n == 0 {
      assert kinds + [] == kinds;
    } else {
      var kind, next := st.buf[0], Saw(st.(buf := st.buf[n..]), st.buf[0]);
      Appended(kinds, kind);
      FinishedNeedsCcs(kinds);
      ScanReads(next, kinds + [kind]);
      assert kinds + Kinds(st.buf) == kinds + [kind] + Kinds(st.buf[n..]);
    }
  }

  lemma FinishedNeedsCcs(kinds: seq<Byte>)
    ensures HasFinished(kinds) ==> HasCcs(kinds)
  {
    if HasFinished(kinds) {
      var j: nat :| FinishedAt(kinds, j);
      var i: nat :| CcsAt(kinds[..j], i);
      assert CcsAt(kinds, i);
    }
  }

  lemma SentReads(st: State, stream: seq<Byte>, chunk: seq<Byte>)
    requires Reads(st, stream)
    ensures Reads(AfterSending(st, chunk), stream + chunk)
  {
    RecordsOfConcat(stream, chunk);
    var k := Kinds(Rest(stream) + chunk);
    if st.on {
      Extended(Kinds(stream), k);
    } else {
      ScanReads(st.(buf := st.buf + chunk), Kinds(stream));
    }
  }

  function Join(chunks: seq<seq<Byte>>): seq<Byte> {
    if chunks == [] then [] else Join(chunks[..|chunks| - 1]) + chunks[|chunks| - 1]
  }

  function SentAll(st: State, chunks: seq<seq<Byte>>): State {
    if chunks == [] then st else AfterSending(SentAll(st, chunks[..|chunks| - 1]), chunks[|chunks| - 1])
  }

  /** However the client's bytes are cut into chunks, the mute is on exactly when the
      complete records hold a request, and until then its state is a function of the bytes. */
  lemma {:induction false} AnyChunksRead(chunks: seq<seq<Byte>>)
    ensures Reads(SentAll(FRESH, chunks), Join(chunks))
  {
    if chunks != [] {
      AnyChunksRead(chunks[..|chunks| - 1]);
      SentReads(SentAll(FRESH, chunks[..|chunks| - 1]), Join(chunks[..|chunks| - 1]), chunks[|chunks| - 1]);
    }
  }

  /** However the bytes of some whole records and of a part of another are cut into chunks: the mute is on exactly
      when those records hold a request, and while it is off the part is what waits in the buffer. */
  lemma AnyChunksOfRecords(rs: seq<Record>, next: Record, n: nat, chunks: seq<seq<Byte>>)
    requires n < |Encode(next)| && Join(chunks) == EncodeAll(rs) + Encode(next)[..n]
    ensures var st := SentAll(FRESH, chunks);
            (st.on <==> HasRequest(KindsOf(rs))) &&
            (!st.on ==> st.buf == Encode(next)[..n] && (st.afterCcs <==> HasCcs(KindsOf(rs)))
                        && (st.skipFinished <==> HasFinished(KindsOf(rs))))
  {
    hide Encode, HasCcs, HasFinished, HasRequest;
    SentRecordsAreRead(rs, next, n);
    AnyChunksRead(chunks);
  }

  /** On a plain connection the first write is the request. */
  lemma {:induction false} PlainIsMutedByTheFirstWrite(chunks: seq<seq<Byte>>)
    ensures SentAll(FRESH.(tls := false), chunks).on <==> chunks != []
    ensures !SentAll(FRESH.(tls := false), chunks).tls
  {
    if chunks != [] {
      PlainIsMutedByTheFirstWrite(chunks[..|chunks| - 1]);
    }
  }

  /** Two cuts of the same bytes cannot be told apart while the mute is off. */
  lemma ChunkingDoesNotMatter(xs: seq<seq<Byte>>, ys: seq<seq<Byte>>)
    requires Join(xs) == Join(ys)
    ensures SentAll(FRESH, xs).on == SentAll(FRESH, ys).on
    ensures !SentAll(FRESH, xs).on ==> SentAll(FRESH, xs) == SentAll(FRESH, ys)
  {
    AnyChunksRead(xs);
    AnyChunksRead(ys);
  }

  /** The three records in order, spelled out. */
  lemma RequestMeans(kinds: seq<Byte>)
    ensures HasRequest(kinds) <==>
            exists i, j, k :: 0 <= i < j < k < |kinds| && kinds[i] == 0x14
                              && kinds[j] in {0x16, 0x17} && kinds[k] == 0x17
  {
    if HasRequest(kinds) {
      var k: nat :| RequestAt(kinds, k);
      var j: nat :| FinishedAt(kinds[..k], j);
      var i: nat :| CcsAt(kinds[..k][..j], i);
      assert kinds[i] == CHANGE_CIPHER_SPEC && IsFinished(kinds[j]);
    }
    if i, j, k :| 0 <= i < j < k < |kinds| && kinds[i] == 0x14 && kinds[j] in {0x16, 0x17} && kinds[k] == 0x17 {
      assert CcsAt(kinds[..k][..j], i);
      assert FinishedAt(kinds[..k], j);
      assert RequestAt(kinds, k);
    }
  }
}
