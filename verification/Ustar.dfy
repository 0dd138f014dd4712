/**
 The archive headers of pintos/src/lib/ustar.c, in the ustar interchange format of the pax utility of
 SUSv3: how a header is composed and how it is parsed.  Names are strings of nonzero bytes.
 */
module Ustar {
  import opened Bytes
  import opened Stdio
  import opened Wrappers

  const HEADER_SIZE: nat := 512
  const ULONG_MAX: nat := 0xFFFF_FFFF
  const INT_MAX: nat := 0x7FFF_FFFF
  const SLASH: Byte := 47
  const DOT: Byte := 46
  const REGULAR: Byte := 48
  const DIRECTORY: Byte := 53
  const MTIME: nat := 1136102400

  type Text = seq<Byte>

  const ROOT: Text := [114, 111, 111, 116]
  const USTAR: Text := [117, 115, 116, 97, 114]
  const NO_ID: Text := [48, 48, 48, 48, 48, 48, 48]

  predicate IsString(s: Text) {
    forall i :: 0 <= i < |s| ==> s[i] != 0
  }

  // ---- strip_antisocial_prefixes ----

  predicate Antisocial(f: Text) {
    || (f != [] && f[0] == SLASH)
    || StartsWith(f, [DOT, SLASH])
    || StartsWith(f, [DOT, DOT, SLASH])
  }

  /** memcmp (f, t, |t|) == 0 */
  predicate StartsWith(f: Text, t: Text) {
    |t| <= |f| && f[..|t|] == t
  }

  /** strchr (f, '/') */
  function SlashAt(f: Text): (k: nat)
    requires SLASH in f
    ensures k < |f| && f[k] == SLASH && SLASH !in f[..k]
  {
    if f[0] == SLASH then 0 else SlashAt(f[1..]) + 1
  }

  lemma AntisocialHasSlash(f: Text)
    requires Antisocial(f)
    ensures SLASH in f
  {
    if f[0] != SLASH {
      assert f[..2][1] == f[1];
      if f[1] != SLASH {
        assert f[..3][2] == f[2];
      }
    }
  }

  function Strip(f: Text): Text
    decreases |f|
  {
    if Antisocial(f) then
      AntisocialHasSlash(f);
      Strip(f[SlashAt(f) + 1..])
    else if f == [] || f == [DOT, DOT] then [DOT]
    else f
  }

  /** A stripped name cannot lead out of the directory by its first component, and stripping it
      again changes nothing. */
  lemma {:induction false} StripIsSafe(f: Text)
    requires IsString(f)
    ensures Strip(f) != [] && Strip(f) != [DOT, DOT] && !Antisocial(Strip(f)) && IsString(Strip(f))
    ensures Strip(Strip(f)) == Strip(f)
    decreases |f|
  {
    if Antisocial(f) {
      AntisocialHasSlash(f);
      StripIsSafe(f[SlashAt(f) + 1..]);
    }
  }

  /** It only ever drops a prefix, or gives the name of the directory itself. */
  lemma {:induction false} StripIsSuffix(f: Text)
    ensures Strip(f) == [DOT] || (|Strip(f)| <= |f| && Strip(f) == f[|f| - |Strip(f)|..])
    decreases |f|
  {
    hide Antisocial, SlashAt;
    if Antisocial(f) {
      AntisocialHasSlash(f);
      var k := SlashAt(f) + 1;
      StripIsSuffix(f[k..]);
      var r := Strip(f[k..]);
      assert |r| <= |f[k..]| ==> f[k..][|f| - k - |r|..] == f[|f| - |r|..];
    }
  }

  /** r is f from byte n on, and what stands before it is only "/", "./" and "../"; an empty rest or ".."
      is replaced by ".". */
  ghost predicate DropsTo(f: Text, n: nat, r: Text) {
    && n <= |f|
    && (forall i :: 0 <= i < n ==> f[i] == 46 || f[i] == 47) && (n > 0 ==> f[n - 1] == 47)
    && (forall i :: 0 <= i < n - 2 ==> f[i] != 46 || f[i + 1] != 46 || f[i + 2] != 46)
    && (if f[n..] == [] || f[n..] == [46, 46] then r == [46] else r == f[n..])
    && (f[n..] != [] ==> f[n] != 47)
    && (|f| >= n + 2 ==> f[n] != 46 || f[n + 1] != 47)
    && (|f| >= n + 3 ==> f[n] != 46 || f[n + 1] != 46 || f[n + 2] != 47)
  }

  /** Stripping drops what it must and no more. */
  lemma {:induction false} StripDrops(f: Text)
    ensures exists n: nat :: DropsTo(f, n, Strip(f))
    decreases |f|
  {
    if Antisocial(f) {
      AntisocialHasSlash(f);
      var k := SlashAt(f) + 1;
      StripDrops(f[k..]);
      var m: nat :| DropsTo(f[k..], m, Strip(f[k..]));
      ShortPrefix(f);
      DropsMore(f, k, m, Strip(f[k..]));
      hide DropsTo, Antisocial, SlashAt;
      assert Strip(f) == Strip(f[k..]);
    } else {
      NotAntisocial(f);
      assert f[0..] == f;
      assert DropsTo(f, 0, Strip(f));
    }
  }

  lemma DropsMore(f: Text, k: nat, m: nat, r: Text)
    requires 0 < k <= 3 && k <= |f| && f[k - 1] == 47 && forall i :: 0 <= i < k - 1 ==> f[i] == 46
    requires DropsTo(f[k..], m, r)
    ensures DropsTo(f, k + m, r)
  {
    var g := f[k..];
    assert g[m..] == f[k + m..];
    assert forall i :: 0 <= i < |g| ==> g[i] == f[k + i];
    assert m > 0 ==> g[m - 1] == f[k + m - 1];
    PrefixBytes(f, k, m);
    assert |f| > k + m ==> f[k + m] == g[m];
    assert |f| > k + m + 1 ==> f[k + m + 1] == g[m + 1];
    assert |f| > k + m + 2 ==> f[k + m + 2] == g[m + 2];
  }

  lemma PrefixBytes(f: Text, k: nat, m: nat)
    requires 0 < k <= 3 && k + m <= |f| && f[k - 1] == 47 && forall i :: 0 <= i < k - 1 ==> f[i] == 46
    requires forall i :: 0 <= i < m ==> f[k..][i] == 46 || f[k..][i] == 47
    requires forall i :: 0 <= i < m - 2 ==> f[k..][i] != 46 || f[k..][i + 1] != 46 || f[k..][i + 2] != 46
    ensures forall i :: 0 <= i < k + m ==> f[i] == 46 || f[i] == 47
    ensures forall i :: 0 <= i < k + m - 2 ==> f[i] != 46 || f[i + 1] != 46 || f[i + 2] != 46
  {
    forall i | 0 <= i < k + m ensures f[i] == 46 || f[i] == 47 {
      assert i >= k ==> f[k..][i - k] == f[i];
    }
    forall i | 0 <= i < k + m - 2 ensures f[i] != 46 || f[i + 1] != 46 || f[i + 2] != 46 {
      if i >= k {
        assert f[k..][i - k] == f[i] && f[k..][i - k + 1] == f[i + 1] && f[k..][i - k + 2] == f[i + 2];
      }
    }
  }

  /** The first slash of a name that is to be stripped, and what stands before it. */
  lemma ShortPrefix(f: Text)
    requires Antisocial(f) && SLASH in f
    ensures SlashAt(f) <= 2 && f[SlashAt(f)] == 47 && forall i :: 0 <= i < SlashAt(f) ==> f[i] == 46
  {
    if f[0] != SLASH {
      assert f[..2][1] == f[1] && f[..2][0] == f[0];
      if f[1] != SLASH {
        assert f[..3][2] == f[2] && f[..3][1] == f[1] && f[..3][0] == f[0];
      }
    }
    if SlashAt(f) > 0 {
      assert f[0] in f[..SlashAt(f)];
    }
    if SlashAt(f) > 1 {
      assert f[1] in f[..SlashAt(f)];
    }
  }

  lemma NotAntisocial(f: Text)
    requires !Antisocial(f)
    ensures f != [] ==> f[0] != 47
    ensures |f| >= 2 ==> f[0] != 46 || f[1] != 47
    ensures |f| >= 3 ==> f[0] != 46 || f[1] != 46 || f[2] != 47
  {
    if |f| >= 2 {
      assert f[..2] == [f[0], f[1]];
    }
    if |f| >= 3 {
      assert f[..3] == [f[0], f[1], f[2]];
    }
  }

  method Strchr(f: Text, start: nat) returns (k: nat)
    requires start <= |f| && SLASH in f[start..]
    ensures start <= k < |f| && k == start + SlashAt(f[start..])
  {
    k := start;
    while f[k] != SLASH
      invariant start <= k < |f| && SLASH in f[k..]
      invariant k + SlashAt(f[k..]) == start + SlashAt(f[start..])
      decreases |f| - k
    {
      assert f[k..][1..] == f[k + 1..];
      assert f[k..] == [f[k]] + f[k + 1..];
      k := k + 1;
    }
  }

  lemma StripOne(f: Text, start: nat)
    requires start <= |f| && Antisocial(f[start..])
    ensures SLASH in f[start..] && start + SlashAt(f[start..]) < |f|
    ensures Strip(f[start + SlashAt(f[start..]) + 1..]) == Strip(f[start..])
  {
    AntisocialHasSlash(f[start..]);
    var k := SlashAt(f[start..]);
    assert f[start..][k + 1..] == f[start + k + 1..];
  }

  lemma StripNone(f: Text)
    requires !Antisocial(f)
    ensures Strip(f) == if f == [] || f == [DOT, DOT] then [DOT] else f
  {
  }

  method StripAntisocialPrefixes(fileName: Text) returns (r: Text)
    ensures r == Strip(fileName)
  {
    hide Strip, StartsWith, SlashAt;
    var start := 0;
    assert fileName[0..] == fileName;
    while (start < |fileName| && fileName[start] == SLASH)
       || StartsWith(fileName[start..], [DOT, SLASH]) || StartsWith(fileName[start..], [DOT, DOT, SLASH])
      invariant start <= |fileName| && Strip(fileName[start..]) == Strip(fileName)
      decreases |fileName| - start
    {
      AntisocialHasSlash(fileName[start..]);
      StripOne(fileName, start);
      var k := Strchr(fileName, start);
      start := k + 1;
    }
    StripNone(fileName[start..]);
    r := fileName[start..];
    if r == [] || r == [DOT, DOT] {
      r := [DOT];
    }
  }

  // ---- octal fields ----

  predicate IsOctal(c: Byte) {
    48 <= c <= 55
  }

  lemma OctalDigit(c: Byte)
    ensures c in BASE_O.digits <==> IsOctal(c)
    ensures IsOctal(c) ==> DigitValue(BASE_O.digits, c) == c - 48
  {
    hide DigitValue;
    var ds := BASE_O.digits;
    assert ds[0] == 48 && ds[1] == 49 && ds[2] == 50 && ds[3] == 51 && ds[4] == 52 && ds[5] == 53 && ds[6] == 54 &&
        ds[7] == 55;
    if IsOctal(c) {
      assert ds[c - 48] == c;
    }
  }

  function DigitCount(s: Text): (k: nat)
    ensures k <= |s| && (k < |s| ==> !IsOctal(s[k])) && forall i :: 0 <= i < k ==> IsOctal(s[i])
  {
    if s == [] || !IsOctal(s[0]) then 0 else DigitCount(s[1..]) + 1
  }

  lemma DigitsInBase(s: Text)
    requires forall i :: 0 <= i < |s| ==> IsOctal(s[i])
    ensures InBase(s, BASE_O)
  {
    forall i | 0 <= i < |s| ensures s[i] in BASE_O.digits {
      OctalDigit(s[i]);
    }
  }

  /** What an octal field means: at least one digit, then a space or a null byte, and a number that an
      unsigned long holds. */
  function ParseOctal(s: Text): Option<nat> {
    var k := DigitCount(s);
    if k == 0 || k == |s| || (s[k] != SPACE_CHAR && s[k] != 0) then None
    else
      DigitsInBase(s[..k]);
      var v := Evaluate(s[..k], BASE_O);
      if v <= ULONG_MAX then Some(v) else None
  }

  lemma {:induction false} EvaluateGrows(s: Text, i: nat, j: nat)
    requires i <= j <= |s| && InBase(s[..j], BASE_O)
    ensures InBase(s[..i], BASE_O) && Evaluate(s[..i], BASE_O) <= Evaluate(s[..j], BASE_O)
    decreases j
  {
    hide Evaluate;
    forall k | 0 <= k < i ensures s[..i][k] in BASE_O.digits {
      assert s[..j][k] in BASE_O.digits;
    }
    if i < j {
      EvaluateNext(s, j - 1);
      EvaluateGrows(s, i, j - 1);
    }
  }

  lemma EvaluateNext(s: Text, k: nat)
    requires k < |s| && InBase(s[..k + 1], BASE_O)
    ensures InBase(s[..k], BASE_O) && IsOctal(s[k])
    ensures Evaluate(s[..k + 1], BASE_O) == Evaluate(s[..k], BASE_O) * 8 + (s[k] - 48)
  {
    var t := s[..k + 1];
    assert t[..k] == s[..k] && t[k] == s[k];
    assert t[k] in BASE_O.digits;
    forall i | 0 <= i < k ensures s[..k][i] in BASE_O.digits {
      assert t[i] in BASE_O.digits;
    }
    OctalDigit(s[k]);
  }

  /** The digits read so far, and their value. */
  ghost predicate ReadSoFar(s: Text, k: nat, v: nat) {
    k <= DigitCount(s) && InBase(s[..k], BASE_O) && v == Evaluate(s[..k], BASE_O)
  }

  lemma ReadNext(s: Text, k: nat, v: nat)
    requires ReadSoFar(s, k, v) && v <= ULONG_MAX && k < |s|
    ensures IsOctal(s[k]) ==> ReadSoFar(s, k + 1, s[k] - 48 + v * 8)
    ensures IsOctal(s[k]) && s[k] - 48 + v * 8 > ULONG_MAX ==> ParseOctal(s) == None
    ensures !IsOctal(s[k]) ==> ParseOctal(s) == if (s[k] == SPACE_CHAR || s[k] == 0) && k > 0 then Some(v) else None
  {
    hide Evaluate;
    if IsOctal(s[k]) {
      DigitsInBase(s[..k + 1]);
      EvaluateNext(s, k);
      DigitsInBase(s[..DigitCount(s)]);
      EvaluateGrows(s, k + 1, DigitCount(s));
    }
  }

  lemma ReadNone(s: Text)
    ensures ReadSoFar(s, 0, 0)
  {
  }

  lemma ReadAll(s: Text, v: nat)
    requires ReadSoFar(s, |s|, v)
    ensures ParseOctal(s) == None
  {
  }

  /** parse_octal_field of the `size` bytes from `start` on */
  method ParseOctalField(header: array<Byte>, start: nat, size: nat) returns (value: Option<nat>)
    requires start + size <= header.Length
    ensures value == ParseOctal(header[start..start + size])
  {
    hide ReadSoFar, ParseOctal;
    ghost var s := header[start..start + size];
    var v: nat := 0;
    ReadNone(s);
    for ofs := 0 to size
      invariant ReadSoFar(s, ofs, v) && v <= ULONG_MAX
    {
      var c := header[start + ofs];
      assert c == s[ofs];
      ReadNext(s, ofs, v);
      if '0' as int <= c <= '7' as int {
        if v > ULONG_MAX / 8 {
          return None;
        }
        v := c - '0' as int + v * 8;
      } else if c == ' ' as int || c == 0 {
        return if ofs > 0 then Some(v) else None;
      } else {
        return None;
      }
    }
    ReadAll(s, v);
    value := None;
  }

  /** Zero-padded octal and a null byte are read back as the number. */
  lemma OctalRoundTrip(v: nat, w: nat)
    requires 1 <= w && v < Power8(w) && v <= ULONG_MAX
    ensures |Octal(v, w)| == w && ParseOctal(Octal(v, w) + [0]) == Some(v)
  {
    OctalDenotes(v, w);
    var ds := Octal(v, w);
    hide Octal;
    forall i | 0 <= i < w ensures IsOctal(ds[i]) {
      OctalDigit(ds[i]);
    }
    var s := ds + [0];
    hide DigitCount;
    CountIs(s, w);
    assert s[..w] == ds;
  }

  lemma CountIs(s: Text, w: nat)
    requires w < |s| && !IsOctal(s[w]) && forall i :: 0 <= i < w ==> IsOctal(s[i])
    ensures DigitCount(s) == w
  {
    hide DigitCount;
  }

  // ---- the checksum ----

  const CHKSUM_START: nat := 148
  const CHKSUM_END: nat := 156

  /** The loop of calculate_chksum: the checksum field counts as spaces. */
  function SumBelow(h: Text, i: nat): (sum: nat)
    requires i <= |h|
    ensures sum <= 255 * i
  {
    if i == 0 then 0
    else SumBelow(h, i - 1) + if CHKSUM_START <= i - 1 < CHKSUM_END then SPACE_CHAR else h[i - 1]
  }

  function Checksum(h: Text): nat
    requires |h| == HEADER_SIZE
  {
    SumBelow(h, HEADER_SIZE)
  }

  /** The sum takes no notice of what is in the checksum field. */
  lemma {:induction false} SumIgnoresField(h: Text, h': Text, i: nat)
    requires i <= |h| == |h'| && forall k :: 0 <= k < |h| && !(CHKSUM_START <= k < CHKSUM_END) ==> h[k] == h'[k]
    ensures SumBelow(h, i) == SumBelow(h', i)
  {
    if i > 0 {
      SumIgnoresField(h, h', i - 1);
    }
  }

  method CalculateChksum(header: array<Byte>) returns (chksum: nat)
    requires header.Length == HEADER_SIZE
    ensures chksum == Checksum(header[..])
  {
    chksum := 0;
    for i := 0 to HEADER_SIZE
      invariant chksum == SumBelow(header[..], i)
    {
      var inChksumField := i >= CHKSUM_START && i < CHKSUM_END;
      chksum := chksum + if inChksumField then ' ' as int else header[i];
    }
  }

  // ---- the header ----

  function Zeros(n: nat): (r: Text)
    ensures |r| == n
  {
    Fill(n, 0)
  }

  /** A string in a field of n bytes. */
  function Padded(s: Text, n: nat): (r: Text)
    requires |s| <= n
    ensures |r| == n
  {
    s + Zeros(n - |s|)
  }

  function Mode(fileType: Byte): nat {
    if fileType == REGULAR then 0x1A4 else 0x1ED
  }

  /** An int as the unsigned int that "%o" prints. */
  function Unsigned(size: int): nat
    requires -0x8000_0000 <= size <= INT_MAX
  {
    if size < 0 then size + 0x1_0000_0000 else size
  }

  predicate FileType(t: Byte) {
    t == REGULAR || t == DIRECTORY
  }

  /** name, mode, uid, gid, size and mtime */
  function Front(name: Text, fileType: Byte, size: nat): (h: Text)
    requires |name| <= 99 && size < Power8(11)
    ensures |h| == CHKSUM_START
  {
    PrintedFits(fileType, size);
    Padded(name, 100) + Padded(Octal(Mode(fileType), 7), 8) + Padded(NO_ID, 8) + Padded(NO_ID, 8)
    + Padded(Octal(size, 11), 12) + Padded(Octal(MTIME, 11), 12)
  }

  lemma PrintedFits(fileType: Byte, size: nat)
    requires size < Power8(11)
    ensures |Octal(Mode(fileType), 7)| == 7 && |Octal(size, 11)| == 11 && |Octal(MTIME, 11)| == 11
  {
    Powers();
    OctalDenotes(Mode(fileType), 7);
    OctalDenotes(size, 11);
    OctalDenotes(MTIME, 11);
  }

  lemma Powers()
    ensures Power8(7) == 0x20_0000 && Power8(11) == 0x2_0000_0000
  {
    assert Power8(4) == 4096;
    assert Power8(8) == 0x100_0000;
  }

  /** typeflag, linkname, magic, version, uname and gname, and null bytes for the other fields */
  function Back(fileType: Byte): (h: Text)
    ensures |h| == HEADER_SIZE - CHKSUM_END
  {
    [fileType] + Zeros(100) + Padded(USTAR, 6) + [48, 48] + Padded(ROOT, 32) + Padded(ROOT, 32) + Zeros(183)
  }

  /** What ustar_make_header writes, when the name is not too long. */
  function Made(fileName: Text, fileType: Byte, size: int): (h: Option<Text>)
    requires FileType(fileType) && -0x8000_0000 <= size <= INT_MAX
    ensures h.Some? ==> |h.value| == HEADER_SIZE
  {
    var name := Strip(fileName);
    if |name| > 99 then None
    else
      Powers();
      var front, back := Front(name, fileType, Unsigned(size)), Back(fileType);
      var sum := Checksum(front + Zeros(8) + back);
      OctalDenotes(sum, 7);
      Some(front + Padded(Octal(sum, 7), 8) + back)
  }

  /** Bytes written over a field of null bytes. */
  lemma FieldWritten(was: Text, now: Text, before: Text, n: nat, after: Text, s: Text)
    requires was == before + Zeros(n) + after && |s| < n
    requires now == was[..|before|] + s + [0] + was[|before| + |s| + 1..]
    ensures now == before + Padded(s, n) + after
  {
    assert was[|before| + |s| + 1..] == Zeros(n - |s| - 1) + after;
    assert [0] + Zeros(n - |s| - 1) == Zeros(n - |s|);
    assert now == before + s + ([0] + Zeros(n - |s| - 1)) + after;
  }

  lemma ZerosSplit(n: nat, m: nat)
    requires n <= m
    ensures Zeros(m) == Zeros(n) + Zeros(m - n)
  {
  }

  method Strlcpy(dst: array<Byte>, start: nat, src: Text, size: nat)
    requires 0 < size && start + size <= dst.Length
    modifies dst
    ensures var n := Min(|src|, size - 1);
            dst[..] == old(dst[..])[..start] + src[..n] + [0] + old(dst[..])[start + n + 1..]
  {
    var dstLen := if |src| < size - 1 then |src| else size - 1;
    ghost var was := dst[..];
    for i := 0 to dstLen
      invariant dst[..] == was[..start] + src[..i] + was[start + i..]
    {
      dst[start + i] := src[i];
    }
    dst[start + dstLen] := 0;
  }

  /** strlcpy to a field that holds null bytes */
  method PutString(header: array<Byte>, start: nat, size: nat, s: Text, ghost before: Text, ghost after: Text)
    requires |s| < size && start == |before| && header[..] == before + Zeros(size) + after
    modifies header
    ensures header[..] == before + Padded(s, size) + after
  {
    ghost var was := header[..];
    assert header.Length == |was|;
    Strlcpy(header, start, s, size);
    assert s[..|s|] == s;
    FieldWritten(was, header[..], before, size, after, s);
  }

  /** snprintf with "%0<size - 1>o" to a field that holds null bytes */
  method PutOctal(header: array<Byte>, start: nat, size: nat, v: nat, ghost before: Text, ghost after: Text)
    requires 2 <= size && v < Power8(size - 1) && v < UINTMAX_END
    requires start == |before| && header[..] == before + Zeros(size) + after
    modifies header
    ensures |Octal(v, size - 1)| == size - 1 && header[..] == before + Padded(Octal(v, size - 1), size) + after
  {
    ghost var was := header[..];
    assert header.Length == |was|;
    OctalDenotes(v, size - 1);
    hide Formatted;
    var n := Snprintf(header, start, size, v, BASE_O, Conversion(false, true, size - 1, -1));
    assert Octal(v, size - 1)[..size - 1] == Octal(v, size - 1);
    FieldWritten(was, header[..], before, size, after, Octal(v, size - 1));
  }

  lemma NextField(done: Text, n: nat, m: nat)
    requires n <= m
    ensures done + Zeros(m) == done + Zeros(n) + Zeros(m - n)
  {
    ZerosSplit(n, m);
  }

  /** The fields from name to mtime, of a header of null bytes. */
  method FillFront(header: array<Byte>, name: Text, fileType: Byte, size: nat)
    requires header.Length == HEADER_SIZE && |name| <= 99 && size < Power8(11) && header[..] == Zeros(HEADER_SIZE)
    modifies header
    ensures header[..] == Front(name, fileType, size) + Zeros(364)
  {
    hide Zeros, Padded, Octal, Power8;
    Powers();
    PrintedFits(fileType, size);
    var mode := if fileType == REGULAR then 0x1A4 else 0x1ED;
    ghost var done := [];
    assert header[..] == done + Zeros(512);
    NextField(done, 100, 512);
    PutString(header, 0, 100, name, done, Zeros(412));
    done := Padded(name, 100);
    assert header[..] == done + Zeros(412);
    NextField(done, 8, 412);
    PutOctal(header, 100, 8, mode, done, Zeros(404));
    done := done + Padded(Octal(mode, 7), 8);
    NextField(done, 8, 404);
    PutString(header, 108, 8, NO_ID, done, Zeros(396));
    done := done + Padded(NO_ID, 8);
    NextField(done, 8, 396);
    PutString(header, 116, 8, NO_ID, done, Zeros(388));
    done := done + Padded(NO_ID, 8);
    NextField(done, 12, 388);
    PutOctal(header, 124, 12, size, done, Zeros(376));
    done := done + Padded(Octal(size, 11), 12);
    NextField(done, 12, 376);
    PutOctal(header, 136, 12, MTIME, done, Zeros(364));
  }

  lemma ByteWritten(done: Text, n: nat, b: Byte)
    requires n > 0
    ensures (done + Zeros(n))[|done| := b] == done + [b] + Zeros(n - 1)
  {
  }

  /** The fields from typeflag on. */
  method FillBack(header: array<Byte>, fileType: Byte, ghost front: Text)
    requires header.Length == HEADER_SIZE && |front| == CHKSUM_START && header[..] == front + Zeros(364)
    modifies header
    ensures header[..] == front + Zeros(8) + Back(fileType)
  {
    hide Zeros, Padded;
    ghost var done := front + Zeros(8);
    NextField(front, 8, 364);
    ByteWritten(done, 356, fileType);
    header[CHKSUM_END] := fileType;
    done := done + [fileType];
    NextField(done, 100, 355);
    done := done + Zeros(100);
    NextField(done, 6, 255);
    PutString(header, 257, 6, USTAR, done, Zeros(249));
    done := done + Padded(USTAR, 6);
    ByteWritten(done, 249, 48);
    header[263] := '0' as int;
    ByteWritten(done + [48], 248, 48);
    header[264] := '0' as int;
    done := done + [48] + [48];
    NextField(done, 32, 247);
    NextField(done + Zeros(32), 32, 215);
    PutString(header, 297, 32, ROOT, done + Zeros(32), Zeros(183));
    assert header[..] == done + Zeros(32) + (Padded(ROOT, 32) + Zeros(183));
    PutString(header, 265, 32, ROOT, done, Padded(ROOT, 32) + Zeros(183));
    BackIs(front + Zeros(8), fileType);
  }

  lemma BackIs(before: Text, fileType: Byte)
    ensures before + [fileType] + Zeros(100) + Padded(USTAR, 6) + [48] + [48] + Padded(ROOT, 32) +
            (Padded(ROOT, 32) + Zeros(183))
            == before + Back(fileType)
  {
    hide Zeros, Padded;
  }

  /** ustar_make_header: false, and the buffer as it was, for a name that is too long. */
  method MakeHeader(fileName: Text, fileType: Byte, size: int, header: array<Byte>) returns (made: bool)
    requires FileType(fileType) && -0x8000_0000 <= size <= INT_MAX && header.Length == HEADER_SIZE
    modifies header
    ensures made <==> Made(fileName, fileType, size).Some?
    ensures header[..] == if made then Made(fileName, fileType, size).value else old(header[..])
  {
    hide Front, Back, Checksum, Octal, Padded, Zeros, Power8;
    var name := StripAntisocialPrefixes(fileName);
    if |name| > 99 {
      return false;
    }
    Powers();
    ZeroesAt(header.Length);
    for i := 0 to header.Length
      invariant forall j :: 0 <= j < i ==> header[j] == 0
    {
      header[i] := 0;
    }
    assert header[..] == Zeros(HEADER_SIZE);
    ghost var front, back := Front(name, fileType, Unsigned(size)), Back(fileType);
    FillFront(header, name, fileType, Unsigned(size));
    FillBack(header, fileType, front);
    var sum := CalculateChksum(header);
    SumFits(header[..]);
    PutOctal(header, CHKSUM_START, 8, sum, front, back);
    made := true;
  }

  lemma SumFits(h: Text)
    requires |h| == HEADER_SIZE
    ensures Checksum(h) <= 255 * HEADER_SIZE
  {
  }

  lemma ZeroesAt(n: nat)
    ensures |Zeros(n)| == n && forall i :: 0 <= i < n ==> Zeros(n)[i] == 0
  {
  }

  // ---- parsing ----

  datatype Error =
    NotUstar | BadVersion | CorruptChecksum | ChecksumMismatch | NameTooLong | UnimplementedType | CorruptSize |
        TooLarge

  datatype Parsed = EndOfArchive | Entry(name: Text, fileType: Byte, size: nat) | Failed(error: Error)

  /** The string in a field that has a null byte, or the whole field. */
  function CString(s: Text): (r: Text)
    ensures |r| <= |s| && r == s[..|r|] && IsString(r) && (|r| < |s| ==> s[|r|] == 0)
  {
    if s == [] || s[0] == 0 then [] else [s[0]] + CString(s[1..])
  }

  predicate AllZeros(s: Text) {
    forall i :: 0 <= i < |s| ==> s[i] == 0
  }

  function SizeField(h: Text): Option<nat>
    requires |h| == HEADER_SIZE
  {
    if h[156] == REGULAR then ParseOctal(h[124..136]) else Some(0)
  }

  function Parse(h: Text): Parsed
    requires |h| == HEADER_SIZE
  {
    if AllZeros(h) then EndOfArchive
    else if h[257..263] != USTAR + [0] then Failed(NotUstar)
    else if h[263] != 48 || h[264] != 48 then Failed(BadVersion)
    else if ParseOctal(h[148..156]) == None then Failed(CorruptChecksum)
    else if ParseOctal(h[148..156]).value != Checksum(h) then Failed(ChecksumMismatch)
    else if h[99] != 0 || h[345] != 0 then Failed(NameTooLong)
    else if !FileType(h[156]) then Failed(UnimplementedType)
    else if SizeField(h) == None then Failed(CorruptSize)
    else if SizeField(h).value > INT_MAX then Failed(TooLarge)
    else Entry(Strip(CString(h[..100])), h[156], SizeField(h).value)
  }

  method IsAllZeros(block: array<Byte>) returns (r: bool)
    ensures r == AllZeros(block[..])
  {
    var i := 0;
    while i < block.Length
      invariant i <= block.Length && forall j :: 0 <= j < i ==> block[j] == 0
    {
      if block[i] != 0 {
        return false;
      }
      i := i + 1;
    }
    r := true;
  }

  lemma CStringNext(f: Text, n: nat)
    requires n <= |f|
    ensures CString(f[n..]) == if n == |f| || f[n] == 0 then [] else [f[n]] + CString(f[n + 1..])
  {
    assert n < |f| ==> f[n..][1..] == f[n + 1..];
  }

  /** The string at the beginning of the block. */
  method StringAt(block: array<Byte>, size: nat) returns (s: Text)
    requires size <= block.Length
    ensures s == CString(block[..size])
  {
    hide CString;
    ghost var f := block[..size];
    assert f[0..] == f;
    var n := 0;
    while n < size && block[n] != 0
      invariant n <= size && CString(f) == f[..n] + CString(f[n..])
    {
      CStringNext(f, n);
      assert f[..n + 1] == f[..n] + [f[n]];
      n := n + 1;
    }
    CStringNext(f, n);
    s := block[..n];
    assert s == f[..n];
  }

  method ParseHeader(header: array<Byte>) returns (r: Parsed)
    requires header.Length == HEADER_SIZE
    ensures r == Parse(header[..])
  {
    hide AllZeros, ParseOctal, Checksum, CString, Strip;
    ghost var h := header[..];
    var zeros := IsAllZeros(header);
    if zeros {
      return EndOfArchive;
    }
    if header[257..263] != USTAR + [0] {
      return Failed(NotUstar);
    } else if header[263] != '0' as int || header[264] != '0' as int {
      return Failed(BadVersion);
    }
    assert header[148..156] == h[148..156] && header[124..136] == h[124..136] && header[..100] == h[..100];
    var chksum := ParseOctalField(header, 148, 8);
    if chksum == None {
      return Failed(CorruptChecksum);
    }
    var sum := CalculateChksum(header);
    if chksum.value != sum {
      return Failed(ChecksumMismatch);
    } else if header[99] != 0 || header[345] != 0 {
      return Failed(NameTooLong);
    } else if header[156] != REGULAR && header[156] != DIRECTORY {
      return Failed(UnimplementedType);
    }
    var size := Some(0);
    if header[156] == REGULAR {
      size := ParseOctalField(header, 124, 12);
      if size == None {
        return Failed(CorruptSize);
      } else if size.value > INT_MAX {
        return Failed(TooLarge);
      }
    }
    var name := StringAt(header, 100);
    name := StripAntisocialPrefixes(name);
    r := Entry(name, header[156], size.value);
  }

  // ---- the round trip ----

  lemma Middle(a: Text, b: Text, c: Text, i: nat, j: nat)
    requires i == |a| && j == |a| + |b|
    ensures (a + b + c)[i..j] == b
  {
  }

  lemma FrontFields(name: Text, fileType: Byte, size: nat)
    requires |name| <= 99 && size < Power8(11)
    ensures |Octal(size, 11)| == 11
    ensures var h := Front(name, fileType, size);
            h[..100] == Padded(name, 100) && h[124..136] == Padded(Octal(size, 11), 12)
  {
    PrintedFits(fileType, size);
    hide Padded, Octal, Power8;
    SixFields(Padded(name, 100), Padded(Octal(Mode(fileType), 7), 8), Padded(NO_ID, 8), Padded(NO_ID, 8),
              Padded(Octal(size, 11), 12), Padded(Octal(MTIME, 11), 12));
  }

  lemma SixFields(a: Text, b: Text, c: Text, d: Text, e: Text, f: Text)
    requires |a| == 100 && |b| == |c| == |d| == 8 && |e| == 12
    ensures (a + b + c + d + e + f)[..100] == a && (a + b + c + d + e + f)[124..136] == e
  {
    Middle(a + b + c + d, e, f, 124, 136);
    assert a + b + c + d + e + f == a + (b + c + d + e + f);
  }

  lemma BackFields(fileType: Byte)
    ensures var h := Back(fileType);
            h[0] == fileType && h[101..107] == USTAR + [0] && h[107] == 48 && h[108] == 48 && h[189] == 0
  {
    var a, b, c := [fileType] + Zeros(100), Padded(USTAR, 6), [48, 48];
    var d, e := Padded(ROOT, 32) + Padded(ROOT, 32), Zeros(183);
    assert b == USTAR + [0];
    ZeroesAt(183);
    hide Padded, Zeros;
    assert Back(fileType) == a + b + (c + (d + e));
    Middle(a, b, c + (d + e), 101, 107);
    assert Back(fileType) == (a + b) + c + (d + e);
    assert Back(fileType) == (a + b + c + d) + e;
  }

  lemma Fields(front: Text, field: Text, back: Text)
    requires |front| == 148 && |field| == 8 && |back| == 356
    ensures var h := front + field + back;
            && h[..100] == front[..100] && h[99] == front[..100][99] && h[124..136] == front[124..136]
            && h[148..156] == field && h[156] == back[0] && h[257..263] == back[101..107]
            && h[263] == back[107] && h[264] == back[108] && h[345] == back[189]
  {
  }

  lemma {:induction false} CStringPadded(s: Text, n: nat)
    requires IsString(s) && |s| < n
    ensures CString(Padded(s, n)) == s
  {
    var t := Padded(s, n);
    if s != [] {
      assert t[0] == s[0] && t[1..] == Padded(s[1..], n - 1);
      CStringPadded(s[1..], n - 1);
    } else {
      ZeroesAt(n);
      assert t == Zeros(n);
    }
  }

  /** The checksum that a header holds is the one that it has: its own field does not count. */
  lemma ChecksumHolds(front: Text, back: Text)
    requires |front| == 148 && |back| == 356
    ensures var sum := Checksum(front + Zeros(8) + back);
            && |Octal(sum, 7)| == 7 && ParseOctal(Octal(sum, 7) + [0]) == Some(sum)
            && Checksum(front + (Octal(sum, 7) + [0]) + back) == sum
  {
    hide Octal, ParseOctal;
    var h := front + Zeros(8) + back;
    Powers();
    SumFits(h);
    OctalRoundTrip(Checksum(h), 7);
    SumIgnoresField(h, front + (Octal(Checksum(h), 7) + [0]) + back, HEADER_SIZE);
  }

  lemma PaddedOctal(v: nat, w: nat)
    requires |Octal(v, w)| == w
    ensures Padded(Octal(v, w), w + 1) == Octal(v, w) + [0]
  {
    assert Zeros(1) == [0];
  }

  /** What parsing gives for a header that was made: the stripped name, the type and, for a regular file,
      the size; a negative size is printed as a number that no int holds. */
  lemma RoundTrip(fileName: Text, fileType: Byte, size: int)
    requires IsString(fileName) && FileType(fileType) && -0x8000_0000 <= size <= INT_MAX
    ensures Made(fileName, fileType, size).Some? <==> |Strip(fileName)| <= 99
    ensures Made(fileName, fileType, size).Some? ==>
              Parse(Made(fileName, fileType, size).value) ==
              if fileType == DIRECTORY then Entry(Strip(fileName), fileType, 0)
              else if size >= 0 then Entry(Strip(fileName), fileType, size)
              else Failed(TooLarge)
  {
    hide Front, Back, Checksum, Octal, Strip, ParseOctal, CString, Power8, Padded, Zeros;
    StripIsSafe(fileName);
    var name := Strip(fileName);
    if |name| <= 99 {
      Powers();
      var front, back := Front(name, fileType, Unsigned(size)), Back(fileType);
      var sum := Checksum(front + Zeros(8) + back);
      FrontFields(name, fileType, Unsigned(size));
      BackFields(fileType);
      ChecksumHolds(front, back);
      PaddedOctal(sum, 7);
      PaddedOctal(Unsigned(size), 11);
      OctalRoundTrip(Unsigned(size), 11);
      Fields(front, Octal(sum, 7) + [0], back);
      CStringPadded(name, 100);
      PaddedEnds(name, 100);
      var h := front + (Octal(sum, 7) + [0]) + back;
      assert Made(fileName, fileType, size) == Some(h);
      assert h[156] != 0;
    }
  }

  lemma PaddedEnds(s: Text, n: nat)
    requires |s| < n
    ensures Padded(s, n)[n - 1] == 0
  {
    ZeroesAt(n - |s|);
  }

  /** The size of a regular file comes back just when it is not negative. */
  lemma SizeComesBack(fileName: Text, size: int)
    requires IsString(fileName) && -0x8000_0000 <= size <= INT_MAX && |Strip(fileName)| <= 99
    ensures Made(fileName, REGULAR, size).Some?
    ensures Parse(Made(fileName, REGULAR, size).value).Entry? <==> size >= 0
  {
    RoundTrip(fileName, REGULAR, size);
  }

  // ---- what the checksum detects ----

  lemma {:induction false} SumChanged(h: Text, i: nat, b: Byte, n: nat)
    requires i < |h| && n <= |h| && !(CHKSUM_START <= i < CHKSUM_END)
    ensures SumBelow(h[i := b], n) == SumBelow(h, n) + if i < n then b - h[i] else 0
  {
    if n > 0 {
      SumChanged(h, i, b, n - 1);
    }
  }

  /** No header that parses does so after a change to one byte outside of the checksum field. */
  lemma OneByteChanged(h: Text, i: nat, b: Byte)
    requires |h| == HEADER_SIZE && i < HEADER_SIZE && b != h[i] && !(CHKSUM_START <= i < CHKSUM_END)
    requires Parse(h).Entry?
    ensures Parse(h[i := b]).Failed?
  {
    hide ParseOctal, CString, Strip;
    SumChanged(h, i, b, HEADER_SIZE);
    assert h[i := b][148..156] == h[148..156];
    var m, m' := h[257..263], h[i := b][257..263];
    assert m[0] == USTAR[0] && m[1] == USTAR[1];
    assert h[257] == m[0] && h[258] == m[1];
    assert i != 257 ==> h[i := b][257] != 0;
    assert i != 258 ==> h[i := b][258] != 0;
  }

  // ---- the fields ----

  /** The plain sum of bytes. */
  function Total(s: Text): nat {
    if s == [] then 0 else Total(s[..|s| - 1]) + s[|s| - 1]
  }

  /** The checksum is the sum of the bytes outside of its own field, and eight spaces. */
  lemma ChecksumIs(h: Text)
    requires |h| == HEADER_SIZE
    ensures Checksum(h) == Total(h[..CHKSUM_START]) + 8 * 32 + Total(h[CHKSUM_END..])
  {
    SumBefore(h, CHKSUM_START);
    SumAfter(h, HEADER_SIZE);
    assert h[CHKSUM_END..HEADER_SIZE] == h[CHKSUM_END..];
    assert SumBelow(h, 156) == SumBelow(h, 155) + 32 && SumBelow(h, 155) == SumBelow(h, 154) + 32;
    assert SumBelow(h, 154) == SumBelow(h, 153) + 32 && SumBelow(h, 153) == SumBelow(h, 152) + 32;
    assert SumBelow(h, 152) == SumBelow(h, 151) + 32 && SumBelow(h, 151) == SumBelow(h, 150) + 32;
    assert SumBelow(h, 150) == SumBelow(h, 149) + 32 && SumBelow(h, 149) == SumBelow(h, 148) + 32;
  }

  lemma {:induction false} SumBefore(h: Text, i: nat)
    requires i <= |h| && i <= CHKSUM_START
    ensures SumBelow(h, i) == Total(h[..i])
  {
    if i > 0 {
      SumBefore(h, i - 1);
      assert h[..i][..i - 1] == h[..i - 1];
    }
  }

  lemma {:induction false} SumAfter(h: Text, i: nat)
    requires CHKSUM_END <= i <= |h|
    ensures SumBelow(h, i) == SumBelow(h, CHKSUM_END) + Total(h[CHKSUM_END..i])
  {
    if i > CHKSUM_END {
      SumAfter(h, i - 1);
      assert h[CHKSUM_END..i][..i - CHKSUM_END - 1] == h[CHKSUM_END..i - 1];
    }
  }

  /** The fields of a made header, as a reader of the format takes them: the mode is 0644 for a file and
      0755 for a directory, owner and group are root with number 0, and the rest is clear. */
  ghost predicate HasFields(h: Text, name: Text, fileType: Byte, size: nat)
    requires |h| == HEADER_SIZE
  {
    && CString(h[..100]) == name
    && ParseOctal(h[100..108]) == Some(if fileType == REGULAR then 6 * 64 + 4 * 8 + 4 else 7 * 64 + 5 * 8 + 5)
    && ParseOctal(h[108..116]) == Some(0) && ParseOctal(h[116..124]) == Some(0)
    && ParseOctal(h[124..136]) == Some(size) && ParseOctal(h[136..148]) == Some(1136102400)
    && ParseOctal(h[148..156]) == Some(Checksum(h))
    && h[156] == fileType && AllZeros(h[157..257])
    && h[257..263] == USTAR + [0] && h[263..265] == [48, 48]
    && CString(h[265..297]) == ROOT && CString(h[297..329]) == ROOT && AllZeros(h[329..])
  }

  lemma MadeFields(fileName: Text, fileType: Byte, size: int)
    requires IsString(fileName) && FileType(fileType) && -0x8000_0000 <= size <= INT_MAX
    ensures match Made(fileName, fileType, size)
            case Some(h) => HasFields(h, Strip(fileName), fileType, Unsigned(size))
            case None => |Strip(fileName)| > 99
  {
    hide Front, Back, Checksum, Octal, Strip, ParseOctal, CString, Power8, Padded, Zeros, AllZeros;
    StripIsSafe(fileName);
    var name := Strip(fileName);
    if |name| <= 99 {
      Powers();
      var front, back := Front(name, fileType, Unsigned(size)), Back(fileType);
      var sum := Checksum(front + Zeros(8) + back);
      ChecksumHolds(front, back);
      PaddedOctal(sum, 7);
      AllFrontFields(name, fileType, Unsigned(size));
      AllBackFields(fileType);
      Parts(front, Octal(sum, 7) + [0], back);
    }
  }

  lemma AllFrontFields(name: Text, fileType: Byte, size: nat)
    requires IsString(name) && |name| <= 99 && size < UINTMAX_END && size < Power8(11)
    ensures var h := Front(name, fileType, size);
            && CString(h[..100]) == name
            && ParseOctal(h[100..108]) == Some(if fileType == REGULAR then 6 * 64 + 4 * 8 + 4 else 7 * 64 + 5 * 8 + 5)
            && ParseOctal(h[108..116]) == Some(0) && ParseOctal(h[116..124]) == Some(0)
            && (size <= ULONG_MAX ==> ParseOctal(h[124..136]) == Some(size))
            && ParseOctal(h[136..148]) == Some(1136102400)
  {
    Powers();
    PrintedFits(fileType, size);
    CStringPadded(name, 100);
    NoIdIsZero();
    OctalRoundTrip(Mode(fileType), 7);
    OctalRoundTrip(MTIME, 11);
    if size <= ULONG_MAX {
      OctalRoundTrip(size, 11);
    }
    PaddedOctal(Mode(fileType), 7);
    PaddedOctal(size, 11);
    PaddedOctal(MTIME, 11);
    hide Octal, ParseOctal, CString, Power8, Padded, Zeros;
    SixParts(Padded(name, 100), Padded(Octal(Mode(fileType), 7), 8), Padded(NO_ID, 8), Padded(NO_ID, 8),
             Padded(Octal(size, 11), 12), Padded(Octal(MTIME, 11), 12));
  }

  lemma NoIdIsZero()
    ensures ParseOctal(Padded(NO_ID, 8)) == Some(0)
  {
    var s := NO_ID + [0];
    assert Padded(NO_ID, 8) == s by { assert Zeros(1) == [0]; }
    forall i | 0 <= i < 7 ensures IsOctal(s[i]) {
    }
    CountIs(s, 7);
    EvaluateZeros(7, [], BASE_O);
    assert s[..7] == NO_ID == Fill(7, ZERO_CHAR) + [];
  }

  lemma SixParts(a: Text, b: Text, c: Text, d: Text, e: Text, f: Text)
    requires |a| == 100 && |b| == |c| == |d| == 8 && |e| == |f| == 12
    ensures var h := a + b + c + d + e + f;
            && h[..100] == a && h[100..108] == b && h[108..116] == c && h[116..124] == d && h[124..136] == e
            && h[136..148] == f
  {
  }

  lemma AllBackFields(fileType: Byte)
    ensures var h := Back(fileType);
            && h[0] == fileType && AllZeros(h[1..101]) && h[101..107] == USTAR + [0] && h[107..109] == [48, 48]
            && CString(h[109..141]) == ROOT && CString(h[141..173]) == ROOT && AllZeros(h[173..])
  {
    CStringPadded(ROOT, 32);
    ZeroesAt(100);
    ZeroesAt(183);
    assert Padded(USTAR, 6) == USTAR + [0];
    hide Padded, Zeros, CString;
    SevenParts([fileType], Zeros(100), Padded(USTAR, 6), [48, 48], Padded(ROOT, 32), Padded(ROOT, 32), Zeros(183));
  }

  lemma SevenParts(a: Text, b: Text, c: Text, d: Text, e: Text, f: Text, g: Text)
    requires |a| == 1 && |b| == 100 && |c| == 6 && |d| == 2 && |e| == |f| == 32 && |g| == 183
    ensures var h := a + b + c + d + e + f + g;
            && h[0] == a[0] && h[1..101] == b && h[101..107] == c && h[107..109] == d && h[109..141] == e
            && h[141..173] == f && h[173..] == g
  {
  }

  lemma Parts(front: Text, field: Text, back: Text)
    requires |front| == 148 && |field| == 8 && |back| == 356
    ensures var h := front + field + back;
            && h[..100] == front[..100] && h[100..108] == front[100..108] && h[108..116] == front[108..116]
            && h[116..124] == front[116..124] && h[124..136] == front[124..136] && h[136..148] == front[136..148]
            && h[148..156] == field && h[156] == back[0] && h[157..257] == back[1..101]
            && h[257..263] == back[101..107] && h[263..265] == back[107..109] && h[265..297] == back[109..141]
            && h[297..329] == back[141..173] && h[329..] == back[173..]
  {
  }

  // ---- what parsing accepts ----

  /** The errors in the order of their checks. */
  function ErrorAt(k: nat): Error {
    match k
    case 0 => NotUstar
    case 1 => BadVersion
    case 2 => CorruptChecksum
    case 3 => ChecksumMismatch
    case 4 => NameTooLong
    case 5 => UnimplementedType
    case 6 => CorruptSize
    case _ => TooLarge
  }

  /** The check behind each error. */
  predicate Passes(h: Text, e: Error)
    requires |h| == HEADER_SIZE
  {
    match e
    case NotUstar => h[257..263] == USTAR + [0]
    case BadVersion => h[263..265] == [48, 48]
    case CorruptChecksum => ParseOctal(h[148..156]).Some?
    case ChecksumMismatch => ParseOctal(h[148..156]) == Some(Checksum(h))
    case NameTooLong => h[99] == 0 && h[345] == 0
    case UnimplementedType => h[156] == REGULAR || h[156] == DIRECTORY
    case CorruptSize => h[156] == REGULAR ==> ParseOctal(h[124..136]).Some?
    case TooLarge => h[156] == REGULAR ==> ParseOctal(h[124..136]).Some? && ParseOctal(h[124..136]).value <= INT_MAX
  }

  lemma AcceptsExactly(h: Text)
    requires |h| == HEADER_SIZE && !AllZeros(h)
    ensures Parse(h).Entry? <==> forall e :: Passes(h, e)
    ensures !Parse(h).EndOfArchive?
  {
    hide ParseOctal, Checksum, CString, Strip;
    assert h[263..265] == [h[263], h[264]];
    if forall e :: Passes(h, e) {
      assert Passes(h, NotUstar) && Passes(h, BadVersion) && Passes(h, CorruptChecksum);
      assert Passes(h, ChecksumMismatch) && Passes(h, NameTooLong) && Passes(h, UnimplementedType);
      assert Passes(h, CorruptSize) && Passes(h, TooLarge);
    }
  }

  /** Of the checks that a header does not pass, the first is reported. */
  lemma FirstFailing(h: Text, k: nat)
    requires |h| == HEADER_SIZE && !AllZeros(h) && k < 8
    requires !Passes(h, ErrorAt(k)) && forall j: nat | j < k :: Passes(h, ErrorAt(j))
    ensures Parse(h) == Failed(ErrorAt(k))
  {
    hide ParseOctal, Checksum, CString, Strip;
    assert h[263..265] == [h[263], h[264]];
    assert k > 0 ==> Passes(h, ErrorAt(0));
    assert k > 1 ==> Passes(h, ErrorAt(1));
    assert k > 2 ==> Passes(h, ErrorAt(2));
    assert k > 3 ==> Passes(h, ErrorAt(3));
    assert k > 4 ==> Passes(h, ErrorAt(4));
    assert k > 5 ==> Passes(h, ErrorAt(5));
    assert k > 6 ==> Passes(h, ErrorAt(6));
  }

  /** Whatever header was parsed, a header made from the result parses to the same. */
  lemma Remade(h: Text)
    requires |h| == HEADER_SIZE && Parse(h).Entry?
    ensures var p := Parse(h);
            && FileType(p.fileType) && p.size <= INT_MAX
            && match Made(p.name, p.fileType, p.size)
               case Some(h') => Parse(h') == p
               case None => false
  {
    hide ParseOctal, Checksum, Made, Octal, Power8, Parse, Strip, CString, IsString, Antisocial;
    ParsedEntry(h);
    ShortName(h[..100]);
    RoundTrip(Parse(h).name, Parse(h).fileType, Parse(h).size);
  }

  lemma ParsedEntry(h: Text)
    requires |h| == HEADER_SIZE && Parse(h).Entry?
    ensures h[99] == 0 && Parse(h).name == Strip(CString(h[..100]))
    ensures FileType(Parse(h).fileType) && Parse(h).size <= INT_MAX
    ensures Parse(h).fileType == DIRECTORY ==> Parse(h).size == 0
  {
    hide ParseOctal, Checksum, Strip, CString;
  }

  lemma ShortName(field: Text)
    requires |field| == 100 && field[99] == 0
    ensures var name := Strip(CString(field));
            IsString(name) && |name| <= 99 && Strip(name) == name
  {
    StripIsSafe(CString(field));
    StripIsSuffix(CString(field));
    hide Strip;
    assert |CString(field)| <= 99;
  }
}
