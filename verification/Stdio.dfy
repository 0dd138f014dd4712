/**
 Unsigned integer conversions of pintos/src/lib/stdio.c: format_integer, and snprintf for a format
 that is a single such conversion.  The flags are '-' and '0'.
 */
module Stdio {
  import opened Bytes
  import opened Sequences

  const ZERO_CHAR: Byte := 48
  const SPACE_CHAR: Byte := 32

  datatype Base = Base(base: nat, digits: seq<Byte>)

  /** The conversions have bases 8, 10 and 16. */
  predicate BaseOk(b: Base) {
    8 <= b.base == |b.digits|
  }

  const BASE_O := Base(8, [48, 49, 50, 51, 52, 53, 54, 55])

  /** A precision of -1 is none. */
  datatype Conversion = Conversion(minus: bool, zero: bool, width: nat, precision: int)

  const UINTMAX_END: nat := 0x1_0000_0000_0000_0000
  const BUF_SIZE: nat := 64

  // ---- what is printed ----

  /** The last digit, and what is left. */
  function Low(v: nat, b: Base): (r: nat)
    requires BaseOk(b)
    ensures r < |b.digits|
  {
    v % b.base
  }

  function High(v: nat, b: Base): (r: nat)
    requires BaseOk(b)
    ensures v > 0 ==> r < v
  {
    if v == 0 then 0
    else
      Smaller(v, b.base);
      v / b.base
  }

  lemma Smaller(v: nat, d: nat)
    requires v > 0 && d >= 2
    ensures v / d < v
  {
    var q := v / d;
    assert v == d * q + v % d;
    assert d * q == 2 * q + (d - 2) * q;
    assert (d - 2) * q >= 0;
  }

  /** The digits of a number, the most significant one first; none for 0. */
  function Digits(v: nat, b: Base): seq<Byte>
    requires BaseOk(b)
    decreases v
  {
    if v == 0 then [] else Digits(High(v, b), b) + [b.digits[Low(v, b)]]
  }

  function Precision(c: Conversion): nat {
    if c.precision < 0 then 1 else c.precision
  }

  /** The digits with zeros before them up to the precision, as far as the buffer goes. */
  function Body(v: nat, b: Base, c: Conversion): seq<Byte>
    requires BaseOk(b)
  {
    var ds := Digits(v, b);
    var n := if Precision(c) <= BUF_SIZE - 1 then Precision(c) else BUF_SIZE - 1;
    if |ds| < n then Fill(n - |ds|, ZERO_CHAR) + ds else ds
  }

  function Padding(v: nat, b: Base, c: Conversion): nat
    requires BaseOk(b)
  {
    if c.width > |Body(v, b, c)| then c.width - |Body(v, b, c)| else 0
  }

  function Formatted(v: nat, b: Base, c: Conversion): seq<Byte>
    requires BaseOk(b)
  {
    (if !c.minus && !c.zero then Fill(Padding(v, b, c), SPACE_CHAR) else [])
    + (if c.zero then Fill(Padding(v, b, c), ZERO_CHAR) else [])
    + Body(v, b, c)
    + (if c.minus then Fill(Padding(v, b, c), SPACE_CHAR) else [])
  }

  // ---- output ----

  function Min(a: nat, b: nat): nat {
    if a < b then a else b
  }

  /** vsnprintf_aux: the characters go to `buffer` from `start` on, at most maxLength of them. */
  class Output {
    const buffer: array<Byte>
    const start: nat
    const maxLength: nat
    var p: nat
    var length: nat
    ghost const was: seq<Byte>
    ghost var sent: seq<Byte>

    ghost predicate Valid()
      reads this, buffer
    {
      && length == |sent| && start + maxLength <= buffer.Length == |was| && p == start + Min(length, maxLength)
      && buffer[..start] == was[..start] && buffer[start..p] == sent[..p - start] && buffer[p..] == was[p..]
    }

    constructor (buffer: array<Byte>, start: nat, maxLength: nat)
      requires start + maxLength <= buffer.Length
      ensures Valid() && sent == [] && this.buffer == buffer && this.start == start && this.maxLength == maxLength
      ensures was == buffer[..]
    {
      this.buffer, this.start, this.maxLength := buffer, start, maxLength;
      p, length := start, 0;
      was, sent := buffer[..], [];
    }

    /** vsnprintf_helper */
    method Put(ch: Byte)
      requires Valid()
      modifies this, buffer
      ensures Valid() && sent == old(sent) + [ch]
    {
      if length < maxLength {
        buffer[p] := ch;
        p := p + 1;
        assert buffer[start..p] == old(buffer[start..p]) + [ch];
      }
      length := length + 1;
      sent := sent + [ch];
    }

    /** output_dup */
    method PutMany(ch: Byte, cnt: nat)
      requires Valid()
      modifies this, buffer
      ensures Valid() && sent == old(sent) + Fill(cnt, ch)
    {
      var left: nat := cnt;
      assert Fill(0, ch) == [];
      while left > 0
        invariant left <= cnt && Valid() && sent == old(sent) + Fill(cnt - left, ch)
      {
        Put(ch);
        left := left - 1;
        assert Fill(cnt - left, ch) == Fill(cnt - left - 1, ch) + [ch];
      }
    }
  }

  // ---- format_integer ----

  /** The buffer has room for the digits of any 64-bit number, with one place to spare. */
  ghost predicate Room(v: nat, k: nat) {
    k <= 22 && v * Power8(k) < UINTMAX_END
  }

  function Power8(k: nat): (p: nat)
    ensures p >= 1
  {
    if k == 0 then 1 else 8 * Power8(k - 1)
  }

  lemma Power8Of22()
    ensures Power8(22) == 0x4_0000_0000_0000_0000
  {
    assert Power8(4) == 4096;
    assert Power8(8) == 0x100_0000;
    assert Power8(12) == 0x10_0000_0000;
    assert Power8(16) == 0x1_0000_0000_0000;
    assert Power8(20) == 0x1000_0000_0000_0000;
  }

  lemma Eighths(v: nat, p: nat, b: nat)
    requires v > 0 && b >= 8
    ensures v * p >= p && v / b * (8 * p) <= v * p
  {
    assert v == b * (v / b) + v % b;
    assert (b - 8) * (v / b) >= 0;
    assert v / b * 8 <= v;
    assert v / b * (8 * p) == (v / b * 8) * p;
  }

  lemma RoomForOne(v: nat, k: nat, b: Base)
    requires Room(v, k) && v > 0 && BaseOk(b)
    ensures k < 22 && Room(High(v, b), k + 1)
  {
    Power8Of22();
    Eighths(v, Power8(k), b.base);
  }

  /** The loop that takes the number apart, the last digit first. */
  method PutDigits(buf: array<Byte>, value: nat, b: Base) returns (cp: nat)
    requires BaseOk(b) && value < UINTMAX_END && buf.Length == BUF_SIZE
    modifies buf
    ensures cp <= 22 && Reversed(buf[..cp]) == Digits(value, b)
  {
    hide Room, Digits, High, Low;
    cp := 0;
    var rest: nat := value;
    RoomAtFirst(value);
    ReversedNone();
    assert buf[..cp] == [];
    hide Reversed;
    while rest > 0
      invariant Room(rest, cp) && cp <= 22
      invariant Digits(value, b) == Digits(rest, b) + Reversed(buf[..cp])
    {
      RoomForOne(rest, cp, b);
      ghost var before := buf[..cp];
      LastDigit(rest, b);
      buf[cp] := b.digits[Low(rest, b)];
      ReversedSnoc(before, buf[cp]);
      assert buf[..cp + 1] == before + [buf[cp]];
      rest := High(rest, b);
      cp := cp + 1;
    }
    NoDigits(b);
    assert Digits(value, b) == [] + Reversed(buf[..cp]);
  }

  /** The loop that appends zeros up to the precision. */
  method PutPrecision(buf: array<Byte>, n: nat, precision: nat) returns (cp: nat)
    requires n < BUF_SIZE == buf.Length
    modifies buf
    ensures cp <= BUF_SIZE
    ensures var m := if precision <= BUF_SIZE - 1 then precision else BUF_SIZE - 1;
            Reversed(buf[..cp]) == if n < m then Fill(m - n, ZERO_CHAR) + Reversed(old(buf[..n]))
                else Reversed(old(buf[..n]))
  {
    hide Reversed;
    cp := n;
    ghost var ds := Reversed(buf[..n]);
    ReversedLength(buf[..n]);
    assert Fill(0, ZERO_CHAR) + ds == ds;
    hide Fill;
    while cp < precision && cp < BUF_SIZE - 1
      invariant n <= cp < BUF_SIZE && (cp > n ==> cp <= precision)
      invariant Reversed(buf[..cp]) == Fill(cp - n, ZERO_CHAR) + ds
    {
      ghost var before := buf[..cp];
      buf[cp] := ZERO_CHAR;
      ReversedSnoc(before, ZERO_CHAR);
      assert buf[..cp + 1] == before + [ZERO_CHAR];
      OneMoreZero(cp - n, ds);
      cp := cp + 1;
    }
  }

  lemma OneMoreZero(k: nat, ds: seq<Byte>)
    ensures [ZERO_CHAR] + (Fill(k, ZERO_CHAR) + ds) == Fill(k + 1, ZERO_CHAR) + ds
  {
    assert Fill(k + 1, ZERO_CHAR) == [ZERO_CHAR] + Fill(k, ZERO_CHAR);
  }

  method FormatInteger(value: nat, b: Base, c: Conversion, output: Output)
    requires BaseOk(b) && value < UINTMAX_END && output.Valid()
    modifies output, output.buffer
    ensures output.Valid() && output.sent == old(output.sent) + Formatted(value, b, c)
  {
    hide Digits, Reversed;
    var buf := new Byte[BUF_SIZE];
    var cp := PutDigits(buf, value, b);
    ghost var n := cp;
    var precision := if c.precision < 0 then 1 else c.precision;
    ReversedLength(buf[..cp]);
    cp := PutPrecision(buf, cp, precision);
    ReversedLength(buf[..cp]);
    assert Reversed(buf[..cp]) == Body(value, b, c);
    hide Body;
    var padCnt := if c.width > cp then c.width - cp else 0;
    PutAll(buf, cp, padCnt, c, output);
  }

  lemma ReversedLength(s: seq<Byte>)
    ensures |Reversed(s)| == |s|
  {
  }

  /** The loop that outputs the digits, which are in the buffer in reverse order. */
  method PutReversed(buf: array<Byte>, n: nat, output: Output)
    requires n <= buf.Length && output.Valid() && buf != output.buffer
    modifies output, output.buffer
    ensures output.Valid() && output.sent == old(output.sent) + Reversed(old(buf[..n]))
  {
    ghost var body := Reversed(buf[..n]);
    var cp := n;
    while cp > 0
      invariant cp <= n && output.Valid() && buf[..n] == old(buf[..n])
      invariant output.sent == old(output.sent) + body[..n - cp]
    {
      ReversedSuffix(buf[..n], cp);
      cp := cp - 1;
      output.Put(buf[cp]);
    }
    assert body[..n] == body;
  }

  /** The last part of format_integer. */
  method PutAll(buf: array<Byte>, n: nat, padCnt: nat, c: Conversion, output: Output)
    requires n <= buf.Length && output.Valid() && buf != output.buffer
    modifies output, output.buffer
    ensures output.Valid()
    ensures output.sent == old(output.sent)
                           + ((if !c.minus && !c.zero then Fill(padCnt, SPACE_CHAR) else [])
                              + (if c.zero then Fill(padCnt, ZERO_CHAR) else [])
                              + Reversed(old(buf[..n]))
                              + (if c.minus then Fill(padCnt, SPACE_CHAR) else []))
  {
    hide Reversed, Fill;
    ghost var body := Reversed(buf[..n]);
    if !c.minus && !c.zero {
      output.PutMany(SPACE_CHAR, padCnt);
    }
    ghost var left := if !c.minus && !c.zero then Fill(padCnt, SPACE_CHAR) else [];
    assert output.sent == old(output.sent) + left;
    if c.zero {
      output.PutMany(ZERO_CHAR, padCnt);
    }
    ghost var zeros := if c.zero then Fill(padCnt, ZERO_CHAR) else [];
    assert output.sent == old(output.sent) + (left + zeros);
    assert buf[..n] == old(buf[..n]);
    PutReversed(buf, n, output);
    assert output.sent == old(output.sent) + (left + zeros + body);
    if c.minus {
      output.PutMany(SPACE_CHAR, padCnt);
    }
  }

  lemma RoomAtFirst(v: nat)
    requires v < UINTMAX_END
    ensures Room(v, 0)
  {
  }

  lemma ReversedNone()
    ensures Reversed<Byte>([]) == []
  {
  }

  lemma LastDigit(v: nat, b: Base)
    requires BaseOk(b) && v > 0
    ensures Digits(v, b) == Digits(High(v, b), b) + [b.digits[Low(v, b)]]
  {
  }

  lemma NoDigits(b: Base)
    requires BaseOk(b)
    ensures Digits(0, b) == []
  {
  }

  /** __vprintf for a format that is a single conversion, with a vsnprintf_aux. */
  method Print(buffer: array<Byte>, start: nat, maxLength: nat, value: nat, b: Base, c: Conversion)
    returns (length: nat, p: nat)
    requires start + maxLength <= buffer.Length && BaseOk(b) && value < UINTMAX_END
    modifies buffer
    ensures length == |Formatted(value, b, c)| && p == start + Min(length, maxLength)
    ensures buffer[..] == old(buffer[..])[..start] + Formatted(value, b, c)[..p - start] + old(buffer[..])[p..]
  {
    hide Formatted;
    ghost var text := Formatted(value, b, c);
    var aux := new Output(buffer, start, maxLength);
    FormatInteger(value, b, c, aux);
    assert aux.sent == text;
    AllParts(aux, text);
    Assembled(aux.was, buffer[..], start, text[..aux.p - start]);
    length, p := aux.length, aux.p;
  }

  /** snprintf of a single conversion to the `size` bytes of `buffer` from `start` on. */
  method Snprintf(buffer: array<Byte>, start: nat, size: nat, value: nat, b: Base, c: Conversion) returns (length: nat)
    requires start + size <= buffer.Length && BaseOk(b) && value < UINTMAX_END
    modifies buffer
    ensures length == |Formatted(value, b, c)|
    ensures size > 0 ==>
              var n := Min(length, size - 1);
              buffer[..] == old(buffer[..])[..start] + Formatted(value, b, c)[..n] + [0] +
                  old(buffer[..])[start + n + 1..]
    ensures size == 0 ==> buffer[..] == old(buffer[..])
  {
    hide Formatted;
    ghost var was := buffer[..];
    var p;
    length, p := Print(buffer, start, if size > 0 then size - 1 else 0, value, b, c);
    if size > 0 {
      ghost var text := Formatted(value, b, c)[..p - start];
      Terminated(was, start, text);
      buffer[p] := 0;
      assert buffer[..] == was[..start] + text + [0] + was[start + |text| + 1..];
    } else {
      assert buffer[..] == was[..start] + [] + was[start..];
    }
  }

  lemma AllParts(aux: Output, text: seq<Byte>)
    requires aux.Valid() && aux.sent == text
    ensures var n := Min(|text|, aux.maxLength);
            && aux.p == aux.start + n && aux.length == |text| && aux.start + n <= |aux.was| == aux.buffer.Length
            && aux.buffer[..][..aux.start] == aux.was[..aux.start]
            && aux.buffer[..][aux.start..aux.start + n] == text[..n]
            && aux.buffer[..][aux.start + n..] == aux.was[aux.start + n..]
  {
    assert aux.buffer[..][..aux.start] == aux.buffer[..aux.start];
    assert aux.buffer[..][aux.start..aux.p] == aux.buffer[aux.start..aux.p];
    assert aux.buffer[..][aux.p..] == aux.buffer[aux.p..];
  }

  lemma Assembled(was: seq<Byte>, now: seq<Byte>, start: nat, text: seq<Byte>)
    requires start + |text| <= |was| == |now|
    requires now[..start] == was[..start] && now[start..start + |text|] == text &&
             now[start + |text|..] == was[start + |text|..]
    ensures now == was[..start] + text + was[start + |text|..]
  {
    assert now == now[..start] + now[start..start + |text|] + now[start + |text|..];
  }

  lemma Terminated(was: seq<Byte>, start: nat, text: seq<Byte>)
    requires start + |text| < |was|
    ensures var s := was[..start] + text + was[start + |text|..];
            s[start + |text| := 0] == was[..start] + text + [0] + was[start + |text| + 1..]
  {
  }

  // ---- what the text means ----

  ghost predicate DigitsDistinct(b: Base) {
    forall i, j :: 0 <= i < j < |b.digits| ==> b.digits[i] != b.digits[j]
  }

  function DigitValue(digits: seq<Byte>, d: Byte): (k: nat)
    requires d in digits
    ensures k < |digits| && digits[k] == d
  {
    if digits[0] == d then 0 else DigitValue(digits[1..], d) + 1
  }

  ghost predicate InBase(ds: seq<Byte>, b: Base) {
    forall i :: 0 <= i < |ds| ==> ds[i] in b.digits
  }

  /** The number that digits denote. */
  function Evaluate(ds: seq<Byte>, b: Base): nat
    requires BaseOk(b) && InBase(ds, b)
  {
    if ds == [] then 0 else Evaluate(ds[..|ds| - 1], b) * b.base + DigitValue(b.digits, ds[|ds| - 1])
  }

  lemma HighLow(v: nat, b: Base)
    requires BaseOk(b)
    ensures High(v, b) * b.base + Low(v, b) == v
  {
  }

  /** The digits printed for a number denote that number, in any base whose digits differ. */
  lemma {:induction false} DigitsDenote(v: nat, b: Base)
    requires BaseOk(b) && DigitsDistinct(b)
    ensures InBase(Digits(v, b), b) && Evaluate(Digits(v, b), b) == v
    decreases v
  {
    if v > 0 {
      var h, l := Digits(High(v, b), b), b.digits[Low(v, b)];
      DigitsDenote(High(v, b), b);
      HighLow(v, b);
      hide Digits, High, Low;
      LastDigit(v, b);
      EvaluateSnoc(h, l, b);
    }
  }

  lemma EvaluateSnoc(ds: seq<Byte>, d: Byte, b: Base)
    requires BaseOk(b) && InBase(ds, b) && d in b.digits
    ensures InBase(ds + [d], b) && Evaluate(ds + [d], b) == Evaluate(ds, b) * b.base + DigitValue(b.digits, d)
  {
    assert (ds + [d])[..|ds|] == ds;
  }

  /** Zeros in front change nothing. */
  lemma {:induction false} EvaluateZeros(k: nat, ds: seq<Byte>, b: Base)
    requires BaseOk(b) && InBase(ds, b) && b.digits[0] == ZERO_CHAR
    ensures InBase(Fill(k, ZERO_CHAR) + ds, b) && Evaluate(Fill(k, ZERO_CHAR) + ds, b) == Evaluate(ds, b)
    decreases |ds|, k
  {
    if ds != [] {
      var h, l := ds[..|ds| - 1], ds[|ds| - 1];
      assert Fill(k, ZERO_CHAR) + ds == (Fill(k, ZERO_CHAR) + h) + [l];
      EvaluateZeros(k, h, b);
      EvaluateSnoc(Fill(k, ZERO_CHAR) + h, l, b);
    } else if k > 0 {
      assert Fill(k, ZERO_CHAR) + ds == (Fill(k - 1, ZERO_CHAR) + ds) + [ZERO_CHAR];
      EvaluateZeros(k - 1, ds, b);
      EvaluateSnoc(Fill(k - 1, ZERO_CHAR) + ds, ZERO_CHAR, b);
    }
  }

  /** As many digits as it takes: no more than n just when the number is below 8 to the n. */
  lemma {:induction false} OctalLength(v: nat, n: nat)
    ensures |Digits(v, BASE_O)| <= n <==> v < Power8(n)
    decreases n
  {
    if v > 0 && n > 0 {
      OctalLength(High(v, BASE_O), n - 1);
      assert v / 8 < Power8(n - 1) <==> v < 8 * Power8(n - 1);
    }
  }

  /** "%0<w>o" */
  function Octal(v: nat, w: nat): seq<Byte> {
    Formatted(v, BASE_O, Conversion(false, true, w, -1))
  }

  /** Zero-padded octal of width w is w digits when the number has no more, and denotes the number. */
  lemma OctalDenotes(v: nat, w: nat)
    requires 1 <= w && v < Power8(w)
    ensures |Octal(v, w)| == w && InBase(Octal(v, w), BASE_O) && Evaluate(Octal(v, w), BASE_O) == v
  {
    hide Digits, Body, Evaluate, Formatted, Fill, Power8;
    var c := Conversion(false, true, w, -1);
    OctalLength(v, w);
    DigitsDenote(v, BASE_O);
    BodyDenotes(v, c);
    EvaluateZeros(Padding(v, BASE_O, c), Body(v, BASE_O, c), BASE_O);
    OctalIs(v, w);
  }

  lemma OctalIs(v: nat, w: nat)
    ensures var c := Conversion(false, true, w, -1);
            Octal(v, w) == Fill(Padding(v, BASE_O, c), ZERO_CHAR) + Body(v, BASE_O, c)
  {
    hide Body;
  }

  lemma BodyDenotes(v: nat, c: Conversion)
    requires c.precision == -1 && InBase(Digits(v, BASE_O), BASE_O) && Evaluate(Digits(v, BASE_O), BASE_O) == v
    ensures var body := Body(v, BASE_O, c);
            && |body| == (if v == 0 then 1 else |Digits(v, BASE_O)|)
            && InBase(body, BASE_O) && Evaluate(body, BASE_O) == v
  {
    var ds := Digits(v, BASE_O);
    if ds == [] {
      EvaluateZeros(1, ds, BASE_O);
    }
  }

  // ---- the layout ----

  /** In the text the digits are the n from k on: they denote v, and there are as many as the precision
      asks for, up to BUF_SIZE - 1, or more with no needless zero in front.  The rest fills the width,
      behind the digits with the flag '-', and else before them. */
  ghost predicate LaidOut(text: seq<Byte>, v: nat, b: Base, c: Conversion, k: nat, n: nat)
    requires BaseOk(b)
  {
    var least := if c.precision < 0 then 1 else Min(c.precision, 63);
    && k + n <= |text| && |text| == (if c.width > n then c.width else n)
    && InBase(text[k..k + n], b) && Evaluate(text[k..k + n], b) == v
    && n >= least && (n > least ==> text[k] != b.digits[0])
    && (if c.minus then k == 0 else k + n == |text|)
    && (forall i :: 0 <= i < |text| && !(k <= i < k + n) ==> text[i] == if c.zero then b.digits[0] else 32)
  }

  lemma FormattedIs(v: nat, b: Base, c: Conversion)
    requires BaseOk(b) && DigitsDistinct(b) && b.digits[0] == ZERO_CHAR && !(c.minus && c.zero)
    ensures exists k, n: nat :: LaidOut(Formatted(v, b, c), v, b, c, k, n)
  {
    var body, pad := Body(v, b, c), Padding(v, b, c);
    BodyIs(v, b, c);
    var text, k := Formatted(v, b, c), if c.minus then 0 else pad;
    Placed(v, b, c);
    hide Formatted, Body, Evaluate, InBase, Padding;
    assert LaidOut(text, v, b, c, k, |body|);
  }

  lemma Placed(v: nat, b: Base, c: Conversion)
    requires BaseOk(b) && b.digits[0] == ZERO_CHAR && !(c.minus && c.zero)
    ensures var text, n, k := Formatted(v, b, c), |Body(v, b, c)|, if c.minus then 0 else Padding(v, b, c);
            && k + n <= |text| == n + Padding(v, b, c) && text[k..k + n] == Body(v, b, c)
            && (!c.minus ==> k + n == |text|)
            && forall i :: 0 <= i < |text| && !(k <= i < k + n) ==> text[i] == if c.zero then b.digits[0] else 32
  {
    hide Body, Padding;
  }

  lemma BodyIs(v: nat, b: Base, c: Conversion)
    requires BaseOk(b) && DigitsDistinct(b) && b.digits[0] == ZERO_CHAR
    ensures var body, least := Body(v, b, c), if c.precision < 0 then 1 else Min(c.precision, 63);
            && InBase(body, b) && Evaluate(body, b) == v && |body| >= least
            && (|body| > least ==> body[0] != b.digits[0])
  {
    hide Digits, Evaluate, InBase, DigitsDistinct;
    var ds := Digits(v, b);
    var n := if Precision(c) <= BUF_SIZE - 1 then Precision(c) else BUF_SIZE - 1;
    DigitsDenote(v, b);
    if |ds| < n {
      EvaluateZeros(n - |ds|, ds, b);
    }
    LeadingDigit(v, b);
  }

  lemma {:induction false} LeadingDigit(v: nat, b: Base)
    requires BaseOk(b) && DigitsDistinct(b)
    ensures Digits(v, b) != [] ==> Digits(v, b)[0] != b.digits[0]
    decreases v
  {
    if v > 0 {
      LeadingDigit(High(v, b), b);
      HighLow(v, b);
      hide Low, High;
      LastDigit(v, b);
      NoDigits(b);
      if High(v, b) == 0 {
        assert b.digits[Low(v, b)] != b.digits[0];
      } else {
        SomeDigits(High(v, b), b);
      }
    }
  }

  lemma SomeDigits(v: nat, b: Base)
    requires BaseOk(b) && v > 0
    ensures Digits(v, b) != []
  {
  }
}
