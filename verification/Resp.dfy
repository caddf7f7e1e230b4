/** The incremental RESP framer and the stream loop of src/checks/redis.rs.

    `CommandLen` gives the outcome of the framer on one buffer; the method
    `RespCommandLen` computes it with the source's nested loops. Machine
    arithmetic is explicit: where the accumulated count, length or cursor would
    leave a 64-bit `usize` the outcome is `Overflow` (the checked arithmetic of
    the test build stops the serving thread there). */
module Resp {
  import opened Types
  import opened Decimal

  type Byte = b: nat | b < 256

  const STAR: Byte := 42
  const DOLLAR: Byte := 36
  const ZERO: Byte := 48
  const CRLF: seq<Byte> := [13, 10]
  const USIZE_MAX: nat := 0xFFFF_FFFF_FFFF_FFFF

  /** `Incomplete` is the source's `None`: no complete command yet, which also
      covers bytes that can never become one. */
  datatype Framing = Incomplete | Overflow | Frame(len: nat)

  datatype DigitScan = TooLarge | Scanned(value: nat, next: nat)

  predicate IsDigit(b: Byte) {
    ZERO <= b <= ZERO + 9
  }

  predicate CrlfAt(buf: seq<Byte>, i: nat) {
    i + 1 < |buf| && buf[i] == 13 && buf[i + 1] == 10
  }

  function ScanDigits(buf: seq<Byte>, i: nat, acc: nat): (s: DigitScan)
    requires i <= |buf|
    ensures s.Scanned? ==> i <= s.next <= |buf|
    decreases |buf| - i
  {
    if i < |buf| && IsDigit(buf[i]) then
      var v := acc * 10 + (buf[i] - ZERO);
      if v > USIZE_MAX then TooLarge else ScanDigits(buf, i + 1, v)
    else Scanned(acc, i)
  }

  /** The end of the bulk string at offset `i`. */
  function ArgEnd(buf: seq<Byte>, i: nat): (r: Framing)
    requires i <= |buf|
    ensures r.Frame? ==> i + 5 <= r.len <= |buf|
  {
    if i >= |buf| || buf[i] != DOLLAR then Incomplete
    else
      match ScanDigits(buf, i + 1, 0)
      case TooLarge => Overflow
      case Scanned(argLen, j) =>
        if !CrlfAt(buf, j) then Incomplete
        else if j + 2 + argLen + 2 > USIZE_MAX then Overflow
        else if j + 2 + argLen + 2 > |buf| then Incomplete
        else Frame(j + 2 + argLen + 2)
  }

  /** `argc` bulk strings starting at offset `i`. */
  function ArgsLen(buf: seq<Byte>, i: nat, argc: nat): (r: Framing)
    requires i <= |buf|
    ensures r.Frame? ==> i + 5 * argc <= r.len <= |buf|
    decreases argc
  {
    if argc == 0 then Frame(i)
    else
      match ArgEnd(buf, i)
      case Frame(n) => ArgsLen(buf, n, argc - 1)
      case Incomplete => Incomplete
      case Overflow => Overflow
  }

  function CommandLen(buf: seq<Byte>): (r: Framing)
    ensures r.Frame? ==> 3 <= r.len <= |buf|
  {
    if buf == [] || buf[0] != STAR then Incomplete
    else
      match ScanDigits(buf, 1, 0)
      case TooLarge => Overflow
      case Scanned(argc, i) =>
        if !CrlfAt(buf, i) then Incomplete else ArgsLen(buf, i + 2, argc)
  }

  /** The digit loop shared by both levels of the framer. */
  method ReadDigits(buf: seq<Byte>, start: nat) returns (s: DigitScan)
    requires start <= |buf|
    ensures s == ScanDigits(buf, start, 0)
  {
    var i, acc: nat := start, 0;
    while i < |buf| && IsDigit(buf[i])
      invariant start <= i <= |buf|
      invariant ScanDigits(buf, start, 0) == ScanDigits(buf, i, acc)
    {
      acc := acc * 10 + (buf[i] - ZERO);
      if acc > USIZE_MAX {
        return TooLarge;
      }
      i := i + 1;
    }
    return Scanned(acc, i);
  }

  method RespCommandLen(buf: seq<Byte>) returns (r: Framing)
    ensures r == CommandLen(buf)
    ensures r.Frame? ==> 3 <= r.len <= |buf|
  {
    hide ScanDigits;
    if |buf| == 0 || buf[0] != STAR {
      return Incomplete;
    }
    var header := ReadDigits(buf, 1);
    if header.TooLarge? {
      return Overflow;
    }
    var i: nat, argc: nat := header.next, header.value;
    if !CrlfAt(buf, i) {
      return Incomplete;
    }
    i := i + 2;
    for k := 0 to argc
      invariant i <= |buf|
      invariant CommandLen(buf) == ArgsLen(buf, i, argc - k)
    {
      if i >= |buf| || buf[i] != DOLLAR {
        return Incomplete;
      }
      i := i + 1;
      var scan := ReadDigits(buf, i);
      if scan.TooLarge? {
        return Overflow;
      }
      if !CrlfAt(buf, scan.next) {
        return Incomplete;
      }
      i := scan.next + 2 + scan.value + 2;
      if i > USIZE_MAX {
        return Overflow;
      }
      if i > |buf| {
        return Incomplete;
      }
    }
    return Frame(i);
  }

  // ---------------------------------------------------------------- extension

  lemma {:induction false} ScanSurvivesExtension(buf: seq<Byte>, longer: seq<Byte>, i: nat, acc: nat)
    requires i <= |buf| && buf <= longer
    requires ScanDigits(buf, i, acc).Scanned? ==> ScanDigits(buf, i, acc).next < |buf|
    ensures ScanDigits(longer, i, acc) == ScanDigits(buf, i, acc)
    decreases |buf| - i
  {
    if i < |buf| && IsDigit(buf[i]) && acc * 10 + (buf[i] - ZERO) <= USIZE_MAX {
      ScanSurvivesExtension(buf, longer, i + 1, acc * 10 + (buf[i] - ZERO));
    }
  }

  lemma ArgSurvivesExtension(buf: seq<Byte>, longer: seq<Byte>, i: nat)
    requires i <= |buf| && buf <= longer && ArgEnd(buf, i) != Incomplete
    ensures ArgEnd(longer, i) == ArgEnd(buf, i)
  {
    ScanSurvivesExtension(buf, longer, i + 1, 0);
    hide ScanDigits;
  }

  lemma {:induction false} ArgsSurviveExtension(buf: seq<Byte>, longer: seq<Byte>, i: nat, argc: nat)
    requires i <= |buf| && buf <= longer
    requires ArgsLen(buf, i, argc) != Incomplete
    ensures ArgsLen(longer, i, argc) == ArgsLen(buf, i, argc)
    decreases argc
  {
    hide ArgEnd;
    if argc == 0 {
    } else {
      ArgSurvivesExtension(buf, longer, i);
      if ArgEnd(buf, i).Frame? {
        ArgsSurviveExtension(buf, longer, ArgEnd(buf, i).len, argc - 1);
      }
    }
  }

  /** A decision, once reached, is final: later bytes cannot change it. */
  lemma DecisionSurvivesExtension(buf: seq<Byte>, ext: seq<Byte>)
    requires CommandLen(buf) != Incomplete
    ensures CommandLen(buf + ext) == CommandLen(buf)
  {
    hide ArgsLen;
    ScanSurvivesExtension(buf, buf + ext, 1, 0);
    hide ScanDigits;
    var s := ScanDigits(buf, 1, 0);
    if s.Scanned? {
      ArgsSurviveExtension(buf, buf + ext, s.next + 2, s.value);
    }
  }

  lemma PrefixDecides(buf: seq<Byte>, k: nat)
    requires k <= |buf|
    ensures CommandLen(buf[..k]) == Incomplete || CommandLen(buf[..k]) == CommandLen(buf)
  {
    if CommandLen(buf[..k]) != Incomplete {
      DecisionSurvivesExtension(buf[..k], buf[k..]);
      assert buf[..k] + buf[k..] == buf;
    }
  }

  // ------------------------------------------------------------------ grammar

  /** One bulk string as the framer reads it. The two leniencies of the source
      are visible here: `digits` may be empty (meaning 0) or carry leading
      zeros, and the two bytes after the payload are arbitrary. */
  datatype LenientArg = LenientArg(digits: seq<Digit>, data: seq<Byte>, tail: seq<Byte>) {
    predicate Valid() {
      Value(digits) == |data| && |tail| == 2
    }
  }

  datatype LenientCommand = LenientCommand(digits: seq<Digit>, args: seq<LenientArg>) {
    predicate Valid() {
      Value(digits) == |args| && forall a | a in args :: a.Valid()
    }
  }

  function AsBytes(ds: seq<Digit>): seq<Byte> {
    seq(|ds|, i requires 0 <= i < |ds| => ds[i] + ZERO)
  }

  function EncodeArg(a: LenientArg): seq<Byte> {
    [DOLLAR] + AsBytes(a.digits) + CRLF + a.data + a.tail
  }

  function EncodeArgs(args: seq<LenientArg>): seq<Byte> {
    if args == [] then [] else EncodeArg(args[0]) + EncodeArgs(args[1..])
  }

  function EncodeLenient(c: LenientCommand): seq<Byte> {
    [STAR] + AsBytes(c.digits) + CRLF + EncodeArgs(c.args)
  }

  lemma {:induction false} ScanReadsDigits(buf: seq<Byte>, i: nat, acc: nat, ds: seq<Digit>)
    requires i + |ds| < |buf| && buf[i..i + |ds|] == AsBytes(ds)
    requires !IsDigit(buf[i + |ds|])
    requires Accumulate(acc, ds) <= USIZE_MAX
    ensures ScanDigits(buf, i, acc) == Scanned(Accumulate(acc, ds), i + |ds|)
    decreases ds
  {
    if ds == [] {
    } else {
      assert buf[i] == buf[i..i + |ds|][0] == ds[0] + ZERO;
      assert buf[i + 1..i + |ds|] == buf[i..i + |ds|][1..] == AsBytes(ds[1..]);
      ScanReadsDigits(buf, i + 1, acc * 10 + ds[0], ds[1..]);
    }
  }

  lemma SliceOfSlice(s: seq<Byte>, i: nat, j: nat, p: nat, q: nat)
    requires i <= j <= |s| && p <= q <= j - i
    ensures s[i..j][p..q] == s[i + p..i + q]
  {
    forall k | 0 <= k < q - p ensures s[i..j][p..q][k] == s[i + p..i + q][k] {
    }
  }

  lemma SplitSlice(s: seq<Byte>, i: nat, a: seq<Byte>, b: seq<Byte>)
    requires i + |a| + |b| <= |s| && s[i..i + |a| + |b|] == a + b
    ensures s[i..i + |a|] == a && s[i + |a|..i + |a| + |b|] == b
  {
    SliceOfSlice(s, i, i + |a| + |b|, 0, |a|);
    SliceOfSlice(s, i, i + |a| + |b|, |a|, |a| + |b|);
    assert (a + b)[0..|a|] == a && (a + b)[|a|..|a| + |b|] == b;
  }

  lemma PiecesOf(d: seq<Byte>, data: seq<Byte>, tail: seq<Byte>)
    ensures var e, n := [DOLLAR] + d + CRLF + data + tail, |d|;
            e[0] == DOLLAR && e[1..1 + n] == d && e[1 + n] == 13 && e[2 + n] == 10
  {
    var e, n := [DOLLAR] + d + CRLF + data + tail, |d|;
    assert e == [DOLLAR] + (d + (CRLF + (data + tail)));
    assert e[1..] == d + (CRLF + (data + tail));
    assert e[1 + n..] == CRLF + (data + tail);
  }

  /** The pieces of one bulk string found at offset `i`. */
  lemma ArgPieces(buf: seq<Byte>, i: nat, a: LenientArg)
    requires a.Valid() && i + |EncodeArg(a)| <= |buf| && buf[i..i + |EncodeArg(a)|] == EncodeArg(a)
    ensures |EncodeArg(a)| == 1 + |a.digits| + 2 + |a.data| + 2
    ensures buf[i] == DOLLAR && CrlfAt(buf, i + 1 + |a.digits|)
    ensures buf[i + 1..i + 1 + |a.digits|] == AsBytes(a.digits)
  {
    var e, n := EncodeArg(a), |a.digits|;
    PiecesOf(AsBytes(a.digits), a.data, a.tail);
    assert buf[i] == buf[i..i + |e|][0];
    SliceOfSlice(buf, i, i + |e|, 1, 1 + n);
    assert buf[i + 1 + n] == buf[i..i + |e|][1 + n];
    assert buf[i + 2 + n] == buf[i..i + |e|][2 + n];
  }

  /** ... and where it leaves the cursor. */
  lemma ArgReadsEncoding(buf: seq<Byte>, i: nat, a: LenientArg, argc: nat)
    requires a.Valid() && i + |EncodeArg(a)| <= |buf| && i + |EncodeArg(a)| <= USIZE_MAX
    requires buf[i..i + |EncodeArg(a)|] == EncodeArg(a)
    ensures ArgsLen(buf, i, argc + 1) == ArgsLen(buf, i + |EncodeArg(a)|, argc)
  {
    hide EncodeArg, AsBytes, ScanDigits;
    ArgPieces(buf, i, a);
    ScanReadsDigits(buf, i + 1, 0, a.digits);
  }

  lemma {:induction false} ArgsReadEncoding(buf: seq<Byte>, i: nat, args: seq<LenientArg>)
    requires forall a | a in args :: a.Valid()
    requires i + |EncodeArgs(args)| <= |buf| && i + |EncodeArgs(args)| <= USIZE_MAX
    requires buf[i..i + |EncodeArgs(args)|] == EncodeArgs(args)
    ensures ArgsLen(buf, i, |args|) == Frame(i + |EncodeArgs(args)|)
    decreases args
  {
    hide EncodeArg, ArgEnd;
    if args == [] {
    } else {
      var e := EncodeArg(args[0]);
      SplitSlice(buf, i, e, EncodeArgs(args[1..]));
      ArgReadsEncoding(buf, i, args[0], |args| - 1);
      ArgsReadEncoding(buf, i + |e|, args[1..]);
    }
  }

  /** Every lenient command is framed exactly, whatever follows it. */
  lemma FramesEveryCommand(c: LenientCommand, rest: seq<Byte>)
    requires c.Valid() && |EncodeLenient(c)| <= USIZE_MAX
    ensures CommandLen(EncodeLenient(c) + rest) == Frame(|EncodeLenient(c)|)
  {
    hide EncodeArgs, ArgsLen;
    var buf := EncodeLenient(c) + rest;
    var pre := [STAR] + AsBytes(c.digits) + CRLF;
    var n := |c.digits|;
    assert buf == pre + EncodeArgs(c.args) + rest;
    assert buf[1..1 + n] == AsBytes(c.digits) && buf[1 + n] == 13 && buf[2 + n] == 10;
    ArgsCount(c.args);
    ScanReadsDigits(buf, 1, 0, c.digits);
    ArgsReadEncoding(buf, n + 3, c.args);
  }

  lemma {:induction false} ArgsCount(args: seq<LenientArg>)
    ensures |args| <= |EncodeArgs(args)|
    decreases args
  {
    if args == [] {
    } else {
      ArgsCount(args[1..]);
    }
  }

  /** The digits that a scan consumed. */
  lemma {:induction false} ScanShape(buf: seq<Byte>, i: nat, acc: nat) returns (ds: seq<Digit>)
    requires i <= |buf| && ScanDigits(buf, i, acc).Scanned?
    ensures var s := ScanDigits(buf, i, acc);
            s.value == Accumulate(acc, ds) && buf[i..s.next] == AsBytes(ds)
    decreases |buf| - i
  {
    if i < |buf| && IsDigit(buf[i]) {
      var d: Digit := buf[i] - ZERO;
      var tail := ScanShape(buf, i + 1, acc * 10 + d);
      ds := [d] + tail;
      assert ds[1..] == tail;
      var next := ScanDigits(buf, i, acc).next;
      assert buf[i..next] == [buf[i]] + buf[i + 1..next];
    } else {
      ds := [];
    }
  }

  lemma FivePieces(s: seq<Byte>, i: nat, a: nat, b: nat, c: nat)
    requires i < a <= b <= c && c + 2 <= |s|
    ensures s[i..c + 2] == [s[i]] + s[i + 1..a] + s[a..b] + s[b..c] + s[c..c + 2]
  {
  }

  lemma CrlfSlice(buf: seq<Byte>, i: nat)
    requires CrlfAt(buf, i)
    ensures buf[i..i + 2] == CRLF
  {
    assert buf[i..i + 2] == [buf[i], buf[i + 1]];
  }

  lemma ArgShape(buf: seq<Byte>, i: nat) returns (a: LenientArg)
    requires i < |buf| && buf[i] == DOLLAR && ScanDigits(buf, i + 1, 0).Scanned?
    requires var s := ScanDigits(buf, i + 1, 0); CrlfAt(buf, s.next) && s.next + 2 + s.value + 2 <= |buf|
    ensures a.Valid()
    ensures var s := ScanDigits(buf, i + 1, 0); buf[i..s.next + 2 + s.value + 2] == EncodeArg(a)
  {
    var s := ScanDigits(buf, i + 1, 0);
    var p, q := s.next + 2, s.next + 2 + s.value;
    var digits := ScanShape(buf, i + 1, 0);
    hide ScanDigits;
    a := LenientArg(digits, buf[p..q], buf[q..q + 2]);
    CrlfSlice(buf, s.next);
    FivePieces(buf, i, s.next, p, q);
  }

  lemma {:induction false} ArgsShape(buf: seq<Byte>, i: nat, argc: nat) returns (args: seq<LenientArg>)
    requires i <= |buf| && ArgsLen(buf, i, argc).Frame?
    ensures |args| == argc && (forall a | a in args :: a.Valid())
    ensures buf[i..ArgsLen(buf, i, argc).len] == EncodeArgs(args)
    decreases argc
  {
    hide ScanDigits, EncodeArg;
    if argc == 0 {
      args := [];
    } else {
      var s := ScanDigits(buf, i + 1, 0);
      var j := s.next + 2 + s.value + 2;
      var a := ArgShape(buf, i);
      var tail := ArgsShape(buf, j, argc - 1);
      args := [a] + tail;
      assert args[1..] == tail;
      var n := ArgsLen(buf, i, argc).len;
      assert buf[i..n] == buf[i..j] + buf[j..n];
    }
  }

  /** Everything the framer accepts is a lenient command. */
  lemma FrameShape(buf: seq<Byte>) returns (c: LenientCommand)
    requires CommandLen(buf).Frame?
    ensures c.Valid() && EncodeLenient(c) == buf[..CommandLen(buf).len]
    ensures 3 + 5 * |c.args| <= CommandLen(buf).len <= |buf|
  {
    hide EncodeArgs, ArgsLen;
    var s := ScanDigits(buf, 1, 0);
    var digits := ScanShape(buf, 1, 0);
    var args := ArgsShape(buf, s.next + 2, s.value);
    c := LenientCommand(digits, args);
    var n := CommandLen(buf).len;
    assert buf[..n] == [buf[0]] + buf[1..s.next] + buf[s.next..s.next + 2] + buf[s.next + 2..n];
    CrlfSlice(buf, s.next);
  }

  ghost predicate StartsWithCommand(buf: seq<Byte>, n: nat) {
    exists c: LenientCommand :: c.Valid() && |EncodeLenient(c)| == n && EncodeLenient(c) <= buf
  }

  /** The framer's language, both ways: it answers `Frame(n)` exactly on the
      buffers whose first n bytes are one lenient command. */
  lemma {:induction false} FramerExactness(buf: seq<Byte>, n: nat)
    requires |buf| <= USIZE_MAX
    ensures CommandLen(buf) == Frame(n) <==> StartsWithCommand(buf, n)
  {
    hide CommandLen, EncodeLenient;
    if CommandLen(buf) == Frame(n) {
      var c := FrameShape(buf);
      assert EncodeLenient(c) <= buf;
    }
    if StartsWithCommand(buf, n) {
      var c: LenientCommand :| c.Valid() && |EncodeLenient(c)| == n && EncodeLenient(c) <= buf;
      FramesEveryCommand(c, buf[n..]);
      assert buf == EncodeLenient(c) + buf[n..];
    }
  }

  /** A frame depends on its own bytes alone, and no shorter prefix of it is
      ever taken for a command (or for an overflow). */
  lemma {:induction false} FrameIsPrefixDetermined(buf: seq<Byte>, other: seq<Byte>, k: nat)
    requires CommandLen(buf).Frame? && |buf| <= USIZE_MAX
    requires var n := CommandLen(buf).len; n <= |other| && other[..n] == buf[..n]
    ensures CommandLen(other) == CommandLen(buf)
    ensures k < CommandLen(buf).len ==> CommandLen(other[..k]) == Incomplete
  {
    hide CommandLen, EncodeLenient;
    var n := CommandLen(buf).len;
    var c := FrameShape(buf);
    FramesEveryCommand(c, other[n..]);
    assert other == EncodeLenient(c) + other[n..];
    if k < n {
      PrefixDecides(other, k);
    }
  }

  // ------------------------------------------------- commands as clients send

  function EncodeBulk(data: seq<Byte>): LenientArg {
    LenientArg(Digits(|data|), data, CRLF)
  }

  function Canonical(cmd: seq<seq<Byte>>): LenientCommand {
    LenientCommand(Digits(|cmd|), seq(|cmd|, i requires 0 <= i < |cmd| => EncodeBulk(cmd[i])))
  }

  /** A command in the form the protocol prescribes for clients: an array of
      bulk strings with canonical decimal lengths. */
  function Encode(cmd: seq<seq<Byte>>): seq<Byte> {
    EncodeLenient(Canonical(cmd))
  }

  lemma EncodedCommandIsFramed(cmd: seq<seq<Byte>>, rest: seq<Byte>)
    requires |Encode(cmd)| <= USIZE_MAX
    ensures CommandLen(Encode(cmd) + rest) == Frame(|Encode(cmd)|)
    ensures forall k: nat | k < |Encode(cmd)| :: CommandLen(Encode(cmd)[..k]) == Incomplete
  {
    FramesEveryCommand(Canonical(cmd), rest);
    forall k: nat | k < |Encode(cmd)| ensures CommandLen(Encode(cmd)[..k]) == Incomplete {
      FramesEveryCommand(Canonical(cmd), []);
      assert Encode(cmd) + [] == Encode(cmd);
      FrameIsPrefixDetermined(Encode(cmd), Encode(cmd), k);
    }
  }

  /** The bytes of the format: 42 and 36 open arrays and bulk strings, 48 to 57
      are digits, 13 10 ends a line, and numbers fit 64 bits. */
  lemma DocumentedBytes(c: LenientCommand, a: LenientArg, ds: seq<Digit>)
    ensures EncodeLenient(c) == [42] + AsBytes(c.digits) + [13, 10] + EncodeArgs(c.args)
    ensures EncodeArg(a) == [36] + AsBytes(a.digits) + [13, 10] + a.data + a.tail
    ensures |AsBytes(ds)| == |ds| && forall i | 0 <= i < |ds| :: AsBytes(ds)[i] as int == ds[i] as int + 48
    ensures USIZE_MAX == 18_446_744_073_709_551_615
  {
  }

  const PING: seq<Byte> := [42, 49, 13, 10, 36, 52, 13, 10, 80, 73, 78, 71, 13, 10]

  lemma PingArgument(a: LenientArg)
    requires a == LenientArg([4], [80, 73, 78, 71], CRLF)
    ensures EncodeArgs([a]) == [36, 52, 13, 10, 80, 73, 78, 71, 13, 10]
  {
    assert AsBytes([4]) == [52];
    assert EncodeArg(a) == [36] + [52] + [13, 10] + [80, 73, 78, 71] + [13, 10];
    assert EncodeArgs([a]) == EncodeArg(a) + EncodeArgs([a][1..]);
  }

  lemma PingCommand()
    ensures Canonical([[80, 73, 78, 71]]) == LenientCommand([1], [LenientArg([4], [80, 73, 78, 71], CRLF)])
  {
    assert Digits(1) == [1] && Digits(4) == [4];
  }

  lemma PingEncoding()
    ensures Encode([[80, 73, 78, 71]]) == PING
  {
    hide Canonical, EncodeArgs, Accumulate;
    PingCommand();
    var a := LenientArg([4], [80, 73, 78, 71], CRLF);
    PingArgument(a);
    assert AsBytes([1]) == [49];
    assert EncodeLenient(LenientCommand([1], [a])) == [42] + [49] + [13, 10] + EncodeArgs([a]);
  }

  /** The PING of the redis client, `*1 $4 PING`, is framed as its 14 bytes. */
  lemma PingIsFramed(rest: seq<Byte>)
    ensures Encode([[80, 73, 78, 71]]) == PING && CommandLen(PING + rest) == Frame(14)
    ensures forall k: nat | k < 14 :: CommandLen(PING[..k]) == Incomplete
  {
    hide Encode, CommandLen;
    PingEncoding();
    EncodedCommandIsFramed([[80, 73, 78, 71]], rest);
  }

  /** The two leniencies: no digits mean zero, and any two bytes end a payload. */
  lemma LenientFrames(x: Byte, y: Byte, rest: seq<Byte>)
    ensures CommandLen([42, 13, 10] + rest) == Frame(3)
    ensures CommandLen([42, 49, 13, 10, 36, 13, 10, x, y] + rest) == Frame(9)
  {
    var none := LenientCommand([], []);
    assert EncodeLenient(none) == [42, 13, 10];
    FramesEveryCommand(none, rest);
    var a := LenientArg([], [], [x, y]);
    var one := LenientCommand([1], [a]);
    assert one.args[1..] == [] && EncodeArg(a) == [36, 13, 10, x, y];
    assert EncodeArgs(one.args) == EncodeArg(a) + EncodeArgs([]);
    assert AsBytes([1]) == [49] && Value([1]) == 1;
    assert EncodeLenient(one) == [42, 49, 13, 10, 36, 13, 10, x, y];
    FramesEveryCommand(one, rest);
  }

  // -------------------------------------------------------------- arithmetic

  /** The scan overflows exactly when the number written by the whole run of
      digits does not fit a usize. */
  lemma {:induction false} ScanOverflowsExactly(buf: seq<Byte>, i: nat, acc: nat, ds: seq<Digit>)
    requires i + |ds| <= |buf| && buf[i..i + |ds|] == AsBytes(ds)
    requires i + |ds| < |buf| ==> !IsDigit(buf[i + |ds|])
    requires acc <= USIZE_MAX
    ensures ScanDigits(buf, i, acc).TooLarge? <==> Accumulate(acc, ds) > USIZE_MAX
    decreases ds
  {
    if ds == [] {
    } else {
      assert buf[i] == buf[i..i + |ds|][0] == ds[0] + ZERO;
      assert buf[i + 1..i + |ds|] == buf[i..i + |ds|][1..] == AsBytes(ds[1..]);
      if acc * 10 + ds[0] <= USIZE_MAX {
        ScanOverflowsExactly(buf, i + 1, acc * 10 + ds[0], ds[1..]);
      }
    }
  }

  predicate DigitsAt(buf: seq<Byte>, i: nat, ds: seq<Digit>) {
    i + |ds| <= |buf| && buf[i..i + |ds|] == AsBytes(ds)
  }

  predicate ArgsAt(buf: seq<Byte>, i: nat, args: seq<LenientArg>) {
    && (forall a | a in args :: a.Valid())
    && i + |EncodeArgs(args)| <= |buf| && buf[i..i + |EncodeArgs(args)|] == EncodeArgs(args)
  }

  /** Digits after the `$` at offset `p` that do not fit a usize, or that take the
      cursor out of range when it skips the payload. */
  predicate TooLong(buf: seq<Byte>, p: nat, es: seq<Digit>) {
    && DigitsAt(buf, p + 1, es)
    && (Value(es) > USIZE_MAX
        || (CrlfAt(buf, p + 1 + |es|) && p + 1 + |es| + 2 + Value(es) + 2 > USIZE_MAX))
  }

  ghost predicate LengthOverflows(buf: seq<Byte>, p: nat) {
    p < |buf| && buf[p] == DOLLAR && exists es: seq<Digit> :: TooLong(buf, p, es)
  }

  /** Such a length after fewer complete bulk strings than asked for. */
  ghost predicate ArgOverflows(buf: seq<Byte>, i: nat, argc: nat) {
    exists args: seq<LenientArg> ::
      |args| < argc && ArgsAt(buf, i, args) && LengthOverflows(buf, i + |EncodeArgs(args)|)
  }

  /** Digits of a count that do not fit a usize, or that ask for more bulk strings
      than are complete before such a length. */
  ghost predicate BadCount(buf: seq<Byte>, ds: seq<Digit>) {
    && DigitsAt(buf, 1, ds)
    && (Value(ds) > USIZE_MAX || (CrlfAt(buf, 1 + |ds|) && ArgOverflows(buf, 1 + |ds| + 2, Value(ds))))
  }

  /** A scan that overflows has read digits that exceed a usize... */
  lemma {:induction false} TooLargeShape(buf: seq<Byte>, i: nat, acc: nat) returns (es: seq<Digit>)
    requires i <= |buf| && ScanDigits(buf, i, acc).TooLarge?
    ensures DigitsAt(buf, i, es) && Accumulate(acc, es) > USIZE_MAX
    decreases |buf| - i
  {
    var d: Digit := buf[i] - ZERO;
    var v := acc * 10 + d;
    if v > USIZE_MAX {
      es := [d];
      assert es[1..] == [];
      assert Accumulate(acc, es) == v;
    } else {
      var tail := TooLargeShape(buf, i + 1, v);
      es := [d] + tail;
      assert es[1..] == tail;
      assert buf[i..i + |es|] == [buf[i]] + buf[i + 1..i + |es|];
    }
  }

  /** ... and any such digits make it overflow, whatever follows them. */
  lemma {:induction false} LargeOverflows(buf: seq<Byte>, i: nat, acc: nat, es: seq<Digit>)
    requires DigitsAt(buf, i, es) && acc <= USIZE_MAX < Accumulate(acc, es)
    ensures ScanDigits(buf, i, acc).TooLarge?
    decreases es
  {
    assert es != [];
    assert buf[i] == buf[i..i + |es|][0] == es[0] + ZERO;
    assert buf[i + 1..i + |es|] == buf[i..i + |es|][1..] == AsBytes(es[1..]);
    if acc * 10 + es[0] <= USIZE_MAX {
      LargeOverflows(buf, i + 1, acc * 10 + es[0], es[1..]);
    }
  }

  /** A scan that succeeds has read a number that fits. */
  lemma {:induction false} ScannedFits(buf: seq<Byte>, i: nat, acc: nat)
    requires i <= |buf| && acc <= USIZE_MAX && ScanDigits(buf, i, acc).Scanned?
    ensures ScanDigits(buf, i, acc).value <= USIZE_MAX
    decreases |buf| - i
  {
    if i < |buf| && IsDigit(buf[i]) {
      ScannedFits(buf, i + 1, acc * 10 + (buf[i] - ZERO));
    }
  }

  lemma ScannedDigits(buf: seq<Byte>, i: nat) returns (ds: seq<Digit>)
    requires i <= |buf| && ScanDigits(buf, i, 0).Scanned?
    ensures DigitsAt(buf, i, ds) && ScanDigits(buf, i, 0) == Scanned(Value(ds), i + |ds|)
    ensures Value(ds) <= USIZE_MAX
  {
    ds := ScanShape(buf, i, 0);
    ScannedFits(buf, i, 0);
    assert |AsBytes(ds)| == |ds|;
  }

  lemma HeadShape(buf: seq<Byte>, i: nat)
    requires i < |buf| && buf[i] == DOLLAR
    requires var s := ScanDigits(buf, i + 1, 0);
             s.TooLarge? || (CrlfAt(buf, s.next) && s.next + 2 + s.value + 2 > USIZE_MAX)
    ensures LengthOverflows(buf, i)
  {
    hide ScanDigits, DigitsAt, Accumulate;
    var es;
    if ScanDigits(buf, i + 1, 0).TooLarge? {
      es := TooLargeShape(buf, i + 1, 0);
    } else {
      es := ScannedDigits(buf, i + 1);
    }
    assert TooLong(buf, i, es);
  }

  lemma HeadOverflows(buf: seq<Byte>, i: nat, argc: nat)
    requires i <= |buf| && argc > 0 && LengthOverflows(buf, i)
    ensures ArgsLen(buf, i, argc) == Overflow
  {
    var es: seq<Digit> :| TooLong(buf, i, es);
    if Value(es) > USIZE_MAX {
      LargeOverflows(buf, i + 1, 0, es);
    } else {
      ScanReadsDigits(buf, i + 1, 0, es);
    }
  }

  lemma FirstEncoded(args: seq<LenientArg>)
    requires args != []
    ensures EncodeArgs(args) == EncodeArg(args[0]) + EncodeArgs(args[1..])
    ensures forall a | a in args[1..] :: a in args
  {
  }

  lemma FirstArg(buf: seq<Byte>, i: nat, args: seq<LenientArg>)
    requires args != [] && ArgsAt(buf, i, args)
    ensures args[0].Valid() && i + |EncodeArg(args[0])| <= |buf|
    ensures buf[i..i + |EncodeArg(args[0])|] == EncodeArg(args[0])
    ensures ArgsAt(buf, i + |EncodeArg(args[0])|, args[1..])
    ensures |EncodeArgs(args)| == |EncodeArg(args[0])| + |EncodeArgs(args[1..])|
  {
    hide EncodeArg, EncodeArgs;
    FirstEncoded(args);
    var e, rest := EncodeArg(args[0]), EncodeArgs(args[1..]);
    assert |EncodeArgs(args)| == |e| + |rest|;
    SplitSlice(buf, i, e, rest);
  }

  lemma {:induction false} LaterArgOverflows(buf: seq<Byte>, i: nat, args: seq<LenientArg>, argc: nat)
    requires |buf| <= USIZE_MAX && i <= |buf| && |args| < argc && ArgsAt(buf, i, args)
    requires LengthOverflows(buf, i + |EncodeArgs(args)|)
    ensures ArgsLen(buf, i, argc) == Overflow
    decreases args
  {
    hide ArgsLen, LengthOverflows, EncodeArg, ArgsAt;
    if args == [] {
      HeadOverflows(buf, i, argc);
    } else {
      FirstArg(buf, i, args);
      ArgReadsEncoding(buf, i, args[0], argc - 1);
      LaterArgOverflows(buf, i + |EncodeArg(args[0])|, args[1..], argc - 1);
    }
  }

  lemma PrependArg(buf: seq<Byte>, i: nat, a: LenientArg, rest: seq<LenientArg>)
    requires a.Valid() && i + |EncodeArg(a)| <= |buf| && buf[i..i + |EncodeArg(a)|] == EncodeArg(a)
    requires ArgsAt(buf, i + |EncodeArg(a)|, rest)
    ensures ArgsAt(buf, i, [a] + rest)
    ensures |EncodeArgs([a] + rest)| == |EncodeArg(a)| + |EncodeArgs(rest)|
  {
    hide EncodeArg;
    assert ([a] + rest)[1..] == rest;
    var j := i + |EncodeArg(a)|;
    var n := j + |EncodeArgs(rest)|;
    assert buf[i..n] == buf[i..j] + buf[j..n];
  }

  lemma {:induction false} OverflowShape(buf: seq<Byte>, i: nat, argc: nat)
    requires |buf| <= USIZE_MAX && i <= |buf| && ArgsLen(buf, i, argc) == Overflow
    ensures ArgOverflows(buf, i, argc)
    decreases argc
  {
    hide EncodeArg, LengthOverflows, ArgsAt, ScanDigits;
    var s := ScanDigits(buf, i + 1, 0);
    if s.Scanned? && s.next + 2 + s.value + 2 <= |buf| {
      var a := ArgShape(buf, i);
      var j := s.next + 2 + s.value + 2;
      OverflowShape(buf, j, argc - 1);
      var rest: seq<LenientArg> :|
        |rest| < argc - 1 && ArgsAt(buf, j, rest) && LengthOverflows(buf, j + |EncodeArgs(rest)|);
      assert j == i + |EncodeArg(a)|;
      PrependArg(buf, i, a, rest);
    } else {
      HeadShape(buf, i);
      NoArgsAt(buf, i);
    }
  }

  lemma NoArgsAt(buf: seq<Byte>, i: nat)
    requires i <= |buf|
    ensures ArgsAt(buf, i, []) && EncodeArgs([]) == []
  {
  }

  /** The framer's arithmetic leaves a usize exactly on an array whose count does
      not fit, or that has, after fewer complete bulk strings than its count, one
      whose length does not fit or takes the cursor out of range. */
  lemma {:induction false} OverflowsExactly(buf: seq<Byte>)
    requires |buf| <= USIZE_MAX
    ensures CommandLen(buf) == Overflow <==>
            buf != [] && buf[0] == STAR && exists ds: seq<Digit> :: BadCount(buf, ds)
  {
    if CommandLen(buf) == Overflow {
      OverflowHasBadCount(buf);
    }
    if buf != [] && buf[0] == STAR && exists ds: seq<Digit> :: BadCount(buf, ds) {
      var ds: seq<Digit> :| BadCount(buf, ds);
      BadCountOverflows(buf, ds);
    }
  }

  lemma OverflowHasBadCount(buf: seq<Byte>)
    requires |buf| <= USIZE_MAX && CommandLen(buf) == Overflow
    ensures exists ds: seq<Digit> :: BadCount(buf, ds)
  {
    hide ArgsLen, ArgOverflows, ScanDigits, DigitsAt, Accumulate;
    var s := ScanDigits(buf, 1, 0);
    var ds;
    if s.TooLarge? {
      ds := TooLargeShape(buf, 1, 0);
    } else {
      ds := ScannedDigits(buf, 1);
      OverflowShape(buf, s.next + 2, s.value);
    }
    assert BadCount(buf, ds);
  }

  lemma BadCountOverflows(buf: seq<Byte>, ds: seq<Digit>)
    requires |buf| <= USIZE_MAX && buf != [] && buf[0] == STAR && BadCount(buf, ds)
    ensures CommandLen(buf) == Overflow
  {
    hide ArgsLen, ScanDigits, LengthOverflows, ArgsAt;
    if Value(ds) > USIZE_MAX {
      LargeOverflows(buf, 1, 0, ds);
    } else {
      ScanReadsDigits(buf, 1, 0, ds);
      var i := 1 + |ds| + 2;
      var args: seq<LenientArg> :|
        |args| < Value(ds) && ArgsAt(buf, i, args) && LengthOverflows(buf, i + |EncodeArgs(args)|);
      LaterArgOverflows(buf, i, args, Value(ds));
    }
  }

  /** Every run of digits in `buf` has at most `m` of them. */
  ghost predicate DigitRunsAtMost(buf: seq<Byte>, m: nat) {
    forall i, j | 0 <= i <= j <= |buf| && AllDigits(buf, i, j) :: j - i <= m
  }

  ghost predicate AllDigits(buf: seq<Byte>, i: nat, j: nat)
    requires i <= j <= |buf|
  {
    forall k | i <= k < j :: IsDigit(buf[k])
  }

  const MAX_SHORT: nat := 1_000_000_000_000_000_000

  lemma {:induction false} ScanStaysSmall(buf: seq<Byte>, start: nat, i: nat, acc: nat)
    requires DigitRunsAtMost(buf, 18) && start <= i <= |buf|
    requires AllDigits(buf, start, i)
    requires acc < Pow10(i - start)
    ensures ScanDigits(buf, i, acc).Scanned? && ScanDigits(buf, i, acc).value < MAX_SHORT
    decreases |buf| - i
  {
    ShortPower(i - start);
    if i < |buf| && IsDigit(buf[i]) {
      assert AllDigits(buf, start, i + 1);
      ShortPower(i + 1 - start);
      ScanStaysSmall(buf, start, i + 1, acc * 10 + (buf[i] - ZERO));
    }
  }

  lemma {:induction false} ShortPower(k: nat)
    ensures k <= 18 ==> Pow10(k) <= MAX_SHORT
  {
    if k <= 18 {
      PowerUpTo(k, 18);
      assert Pow10(6) == 1_000_000;
      assert Pow10(12) == 1_000_000_000_000;
      assert Pow10(18) == MAX_SHORT;
    }
  }

  lemma {:induction false} PowerUpTo(k: nat, n: nat)
    requires k <= n
    ensures Pow10(k) <= Pow10(n)
    decreases n
  {
    if k < n {
      PowerUpTo(k, n - 1);
    }
  }

  lemma {:induction false} ArgsNeverOverflow(buf: seq<Byte>, i: nat, argc: nat)
    requires DigitRunsAtMost(buf, 18) && |buf| < 0x8000_0000_0000_0000 && i <= |buf|
    ensures ArgsLen(buf, i, argc) != Overflow
    decreases argc
  {
    if argc != 0 && i < |buf| && buf[i] == DOLLAR {
      assert Pow10(0) == 1;
      ScanStaysSmall(buf, i + 1, i + 1, 0);
      var s := ScanDigits(buf, i + 1, 0);
      if s.next + 2 + s.value + 2 <= |buf| {
        ArgsNeverOverflow(buf, s.next + 2 + s.value + 2, argc - 1);
      }
    }
  }

  /** No 64-bit overflow in a real buffer (at most isize::MAX bytes) whose
      digit runs have at most 18 digits. */
  lemma NoOverflowWithShortNumbers(buf: seq<Byte>)
    requires DigitRunsAtMost(buf, 18) && |buf| < 0x8000_0000_0000_0000
    ensures CommandLen(buf) != Overflow
  {
    if buf != [] && buf[0] == STAR {
      ScanStaysSmall(buf, 1, 1, 0);
      var s := ScanDigits(buf, 1, 0);
      if CrlfAt(buf, s.next) {
        ArgsNeverOverflow(buf, s.next + 2, s.value);
      }
    }
  }
}
