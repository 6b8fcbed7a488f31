/** The messages of the kernel's IPC service (`hybrid_ipc.c`): packing, the request of a client, the answer. */
module Messages {
  import opened Bytes
  import opened Arith

  const MAX_PAYLOAD := 48
  const SERVICE := 3

  const MSG_NOP := 0
  const MSG_PING := 1
  const MSG_PONG := 2
  const MSG_FS_OPEN := 10
  const MSG_FS_REPLY := 11

  const TWO63 := 0x8000_0000_0000_0000

  type Payload = s: seq<byte> | |s| == MAX_PAYLOAD witness Zeros(MAX_PAYLOAD)

  datatype Msg = Msg(sender: nat, typ: nat, payload: Payload)

  // Little-endian numbers of n bytes.

  function Pow256(n: nat): (p: nat)
    ensures p > 0
  {
    if n == 0 then 1 else 256 * Pow256(n - 1)
  }

  function LeBytes(u: nat, n: nat): (s: seq<byte>)
    ensures |s| == n
  {
    if n == 0 then [] else [u % 256] + LeBytes(u / 256, n - 1)
  }

  function LeValue(s: seq<byte>): nat {
    if s == [] then 0
    else
      var b: int := s[0];
      b + 256 * LeValue(s[1..])
  }

  lemma {:induction false} LeRoundTrip(u: nat, n: nat)
    requires u < Pow256(n)
    ensures LeValue(LeBytes(u, n)) == u
  {
    if n > 0 {
      LeRoundTrip(u / 256, n - 1);
      assert LeBytes(u, n)[1..] == LeBytes(u / 256, n - 1);
    }
  }

  lemma {:induction false} LeValueSnoc(s: seq<byte>, b: byte)
    ensures LeValue(s + [b]) == LeValue(s) + Pow256(|s|) * b
  {
    if s == [] {
      assert LeValue([b][1..]) == 0;
    } else {
      assert (s + [b])[1..] == s[1..] + [b];
      LeValueSnoc(s[1..], b);
      var p := Pow256(|s| - 1);
      assert Pow256(|s|) * b == 256 * (p * b);
    }
  }

  function ToU64(v: int): nat
    requires -TWO63 <= v < TWO63
  {
    if v < 0 then v + TWO64 else v
  }

  function ToI64(u: nat): int
    requires u < TWO64
  {
    if u < TWO63 then u else u - TWO64
  }

  lemma Pow256Eight()
    ensures Pow256(8) == TWO64
  {
    assert Pow256(4) == 0x1_0000_0000;
    assert Pow256(8) == 256 * (256 * (256 * (256 * Pow256(4))));
  }

  /** `u` shifted right by i bytes. */
  function ShiftRight(u: nat, i: nat): nat {
    if i == 0 then u else ShiftRight(u, i - 1) / 256
  }

  /** `pack_i64` */
  method PackI64(v: int) returns (p: seq<byte>)
    requires -TWO63 <= v < TWO63
    ensures p == LeBytes(ToU64(v), 8)
  {
    var u := ToU64(v);
    p := [];
    for i := 0 to 8
      invariant |p| == i && LeBytes(u, 8) == p + LeBytes(ShiftRight(u, i), 8 - i)
    {
      ghost var rest := ShiftRight(u, i);
      LeBytesStep(p, rest, 8 - i);
      p := p + [ShiftRight(u, i) % 256];
    }
    assert LeBytes(ShiftRight(u, 8), 0) == [];
  }

  lemma LeBytesStep(p: seq<byte>, rest: nat, n: nat)
    requires n > 0
    ensures p + LeBytes(rest, n) == p + [rest % 256] + LeBytes(rest / 256, n - 1)
  {
  }

  /** `unpack_i64` */
  method UnpackI64(p: seq<byte>) returns (v: int)
    requires |p| >= 8
    ensures LeValue(p[..8]) < TWO64 && v == ToI64(LeValue(p[..8]))
  {
    var u := 0;
    for i := 0 to 8
      invariant u == LeValue(p[..i]) < Pow256(i)
    {
      var b: int := p[i];
      assert p[..i + 1] == p[..i] + [p[i]];
      LeValueSnoc(p[..i], p[i]);
      assert Pow256(i) * b <= 255 * Pow256(i) by { MulMono(b, 255, Pow256(i)); }
      u := u + Pow256(i) * b;
    }
    Pow256Eight();
    v := ToI64(u);
  }

  /** What a file descriptor or error code is packed to is unpacked to it. */
  lemma PackUnpack(v: int)
    requires -TWO63 <= v < TWO63
    ensures LeValue(LeBytes(ToU64(v), 8)) < TWO64 && ToI64(LeValue(LeBytes(ToU64(v), 8))) == v
  {
    Pow256Eight();
    LeRoundTrip(ToU64(v), 8);
  }

  // The request of a client and the answer of the service.

  /** The payload of an open request: the path, cut to leave room for a NUL, and zeros. */
  function OpenPayload(path: CStr): Payload {
    var n := Min(|path|, MAX_PAYLOAD - 1);
    path[..n] + Zeros(MAX_PAYLOAD - n)
  }

  /** The beginning of `hybrid_user_fd_open_via_ipc`, which fills in the request. */
  method FillOpen(path: CStr) returns (payload: Payload)
    ensures payload == OpenPayload(path)
  {
    var s: seq<byte> := [];
    var i := 0;
    while i < |path| && i + 1 < MAX_PAYLOAD
      invariant i <= |path| && i < MAX_PAYLOAD && s == path[..i]
    {
      s := s + [path[i]];
      i := i + 1;
    }
    ghost var n := i;
    while i < MAX_PAYLOAD
      invariant n <= i <= MAX_PAYLOAD && s == path[..n] + Zeros(i - n)
    {
      s := s + [0];
      i := i + 1;
    }
    payload := s;
  }

  /** The path that the service reads out of a payload. */
  function PathIn(payload: Payload): CStr {
    Prefix(payload, 0)
  }

  /** The bytes from place `j` to the first NUL, or to the place kept for one. */
  function Prefix(payload: Payload, j: nat): CStr
    requires j < MAX_PAYLOAD
    decreases MAX_PAYLOAD - j
  {
    if j == MAX_PAYLOAD - 1 || payload[j] == 0 then [] else [payload[j]] + Prefix(payload, j + 1)
  }

  /** The loop of the service that copies the path. */
  method ReadPath(payload: Payload) returns (path: CStr)
    ensures path == PathIn(payload)
  {
    path := [];
    var j := 0;
    while j < MAX_PAYLOAD - 1 && payload[j] != 0
      invariant j <= MAX_PAYLOAD - 1 && path + Prefix(payload, j) == PathIn(payload)
    {
      assert path + Prefix(payload, j) == path + [payload[j]] + Prefix(payload, j + 1);
      path := path + [payload[j]];
      j := j + 1;
    }
  }

  lemma {:induction false} PrefixOf(payload: Payload, path: CStr, j: nat)
    requires j <= |path| < MAX_PAYLOAD && payload[..|path|] == path
    requires |path| < MAX_PAYLOAD - 1 ==> payload[|path|] == 0
    ensures Prefix(payload, j) == path[j..]
    decreases |path| - j
  {
    if j < |path| {
      assert payload[j] == payload[..|path|][j] == path[j];
      assert path[j] in path;
      PrefixOf(payload, path, j + 1);
    }
  }

  /** The service opens the path that the client asked for, cut to 47 bytes. */
  lemma OpenPath(path: CStr)
    ensures PathIn(OpenPayload(path)) == path[..Min(|path|, MAX_PAYLOAD - 1)]
  {
    var n := Min(|path|, MAX_PAYLOAD - 1);
    var short: CStr := path[..n];
    PrefixOf(OpenPayload(path), short, 0);
    assert short[0..] == short;
  }

  /** The bytes of an open request: those of the path, at most 47 of them, and zeros behind. */
  lemma OpenPayloadIs(path: CStr, i: nat)
    requires i < 48
    ensures OpenPayload(path)[i] == if i < |path| && i < 47 then path[i] else 0
  {
  }

  /** The answer to a request; `fd` is what opening the file gave. */
  function Respond(m: Msg, fd: int): Msg
    requires -TWO63 <= fd < TWO63
  {
    if m.typ == MSG_FS_OPEN then Msg(SERVICE, MSG_FS_REPLY, LeBytes(ToU64(fd), 8) + Zeros(MAX_PAYLOAD - 8))
    else Msg(SERVICE, if m.typ == MSG_PING then MSG_PONG else MSG_NOP, m.payload)
  }

  /** A client that asked to open a file gets the descriptor back. */
  lemma OpenAnswer(m: Msg, fd: int)
    requires m.typ == MSG_FS_OPEN && -TWO63 <= fd < TWO63
    ensures Respond(m, fd).typ == MSG_FS_REPLY
    ensures var u := LeValue(Respond(m, fd).payload[..8]); u < TWO64 && ToI64(u) == fd
  {
    assert Respond(m, fd).payload[..8] == LeBytes(ToU64(fd), 8);
    PackUnpack(fd);
  }

  /** Eight bytes spell the number that the on-disk fields of this width spell. */
  lemma LeValueIsU64(s: seq<byte>)
    requires |s| == 8
    ensures LeValue(s) == U64(s, 0)
  {
    var t := s[4..];
    LeValueFour(s);
    LeValueFour(t);
    assert t[4..] == [];
  }

  lemma LeValueFour(s: seq<byte>)
    requires |s| >= 4
    ensures LeValue(s) == U32(s, 0) + TWO32 * LeValue(s[4..])
  {
    var s1, s2, s3 := s[1..], s[2..], s[3..];
    assert s1[1..] == s2 && s2[1..] == s3 && s3[1..] == s[4..];
    assert LeValue(s2) == s[2] as int + 256 * LeValue(s3);
    assert LeValue(s3) == s[3] as int + 256 * LeValue(s[4..]);
  }

  /** What a request is answered with: the same bytes, or the number of the file that was opened. */
  lemma RespondIs(m: Msg, fd: int)
    requires -TWO63 <= fd < TWO63
    ensures Respond(m, fd).sender == 3
    ensures m.typ == 1 ==> Respond(m, fd).typ == 2 && Respond(m, fd).payload == m.payload
    ensures m.typ != 1 && m.typ != 10 ==> Respond(m, fd).typ == 0 && Respond(m, fd).payload == m.payload
    ensures m.typ == 10 ==> Respond(m, fd).typ == 11
    ensures m.typ == 10 ==> U64(Respond(m, fd).payload, 0) == if fd < 0 then fd + 0x1_0000_0000_0000_0000 else fd
    ensures m.typ == 10 ==> forall j :: 8 <= j < 48 ==> Respond(m, fd).payload[j] == 0
  {
    if m.typ == 10 {
      var p := Respond(m, fd).payload;
      var front := p[..8];
      assert front == LeBytes(ToU64(fd), 8);
      Pow256Eight();
      LeRoundTrip(ToU64(fd), 8);
      LeValueIsU64(front);
      assert U64(p, 0) == U64(front, 0) by {
        assert forall i :: 0 <= i < 8 ==> p[i] == front[i];
      }
    }
  }
}
