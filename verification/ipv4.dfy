/** The strict dotted-quad IPv4 syntax that both `socket.inet_pton(AF_INET, ...)`
    and `ipaddress.IPv4Address` accept: four decimal octets separated by
    dots, each 1 to 3 ASCII digits without a leading zero and at most 255. */
module IPv4 {
  import opened Wrappers
  import opened Text

  const OctetBase: nat := 256
  const AddressSpace: nat := 0x1_0000_0000

  predicate IsDigit(c: char) {
    '0' <= c <= '9'
  }

  function DigitChar(d: nat): (c: char)
    requires d < 10
    ensures IsDigit(c)
  {
    ('0' as int + d) as char
  }

  function DigitValue(c: char): (d: nat)
    requires IsDigit(c)
    ensures d < 10
  {
    c as int - '0' as int
  }

  /** Value of a string of decimal digits. */
  function DecimalValue(t: string): nat
    requires forall k | 0 <= k < |t| :: IsDigit(t[k])
  {
    if |t| == 0 then 0
    else DecimalValue(t[..|t| - 1]) * 10 + DigitValue(t[|t| - 1])
  }

  /** Canonical decimal text of `n`: no leading zero. */
  function Decimal(n: nat): (t: string)
    ensures |t| > 0
    ensures forall k | 0 <= k < |t| :: IsDigit(t[k])
    ensures n < 10 <==> |t| == 1
    ensures |t| > 1 ==> t[0] != '0'
    ensures n < 1000 ==> |t| <= 3
  {
    if n < 10 then [DigitChar(n)] else Decimal(n / 10) + [DigitChar(n % 10)]
  }

  /** One octet: 1 to 3 digits, no leading zero, at most 255. */
  function ParseOctet(t: string): (r: Option<nat>)
    ensures r.Some? ==> r.value < OctetBase
  {
    if |t| == 0 || |t| > 3 || (|t| > 1 && t[0] == '0') then None
    else if !(forall k | 0 <= k < |t| :: IsDigit(t[k])) then None
    else if DecimalValue(t) < OctetBase then Some(DecimalValue(t))
    else None
  }

  /** The 32-bit value of a dotted quad, or None if `s` is not one. */
  function Parse(s: string): (r: Option<nat>)
    ensures r.Some? ==> r.value < AddressSpace
  {
    var parts := Split(s, '.');
    if |parts| != 4 then None
    else
      match (ParseOctet(parts[0]), ParseOctet(parts[1]), ParseOctet(parts[2]), ParseOctet(parts[3]))
      case (Some(a), Some(b), Some(c), Some(d)) =>
        Some(Combine(a, b, c, d))
      case _ => None
  }

  /** The address whose octets, most significant first, are `a.b.c.d`. */
  function Combine(a: nat, b: nat, c: nat, d: nat): (v: nat)
    requires a < OctetBase && b < OctetBase && c < OctetBase && d < OctetBase
    ensures v < AddressSpace
    ensures v % OctetBase == d
    ensures v / OctetBase % OctetBase == c
    ensures v / OctetBase / OctetBase % OctetBase == b
    ensures v / OctetBase / OctetBase / OctetBase == a
  {
    var ab := a * OctetBase + b;
    var abc := ab * OctetBase + c;
    ShiftOctet(a, b, 1);
    ShiftOctet(ab, c, OctetBase);
    ShiftOctet(abc, d, OctetBase * OctetBase);
    abc * OctetBase + d
  }

  /** Appending an octet `d` to a number below `256^k` gives a number
      below `256^(k+1)` from which `/` and `%` take `d` back off. */
  lemma {:induction false} ShiftOctet(x: nat, d: nat, bound: nat)
    requires x < OctetBase * bound && d < OctetBase
    ensures (x * OctetBase + d) % OctetBase == d
    ensures (x * OctetBase + d) / OctetBase == x
    ensures x * OctetBase + d < OctetBase * OctetBase * bound
  {
    assert x * OctetBase + d < (x + 1) * OctetBase;
    assert x + 1 <= OctetBase * bound;
  }

  predicate IsAddress(s: string) {
    Parse(s).Some?
  }

  /** The four octets of an address, most significant first. */
  function Octets(v: nat): (o: seq<nat>)
    requires v < AddressSpace
    ensures |o| == 4 && forall k | 0 <= k < 4 :: o[k] < OctetBase
    ensures Combine(o[0], o[1], o[2], o[3]) == v
  {
    var d := v % OctetBase;
    var w := v / OctetBase;
    var c := w % OctetBase;
    var x := w / OctetBase;
    var b := x % OctetBase;
    var a := x / OctetBase;
    [a, b, c, d]
  }

  /** The dotted-quad text of an address. */
  function Format(v: nat): string
    requires v < AddressSpace
  {
    var o := Octets(v);
    Join([Decimal(o[0]), Decimal(o[1]), Decimal(o[2]), Decimal(o[3])], '.')
  }

  /** Reading a digit string back gives its value. */
  lemma {:induction false} DecimalValueOf(n: nat)
    ensures DecimalValue(Decimal(n)) == n
    decreases n
  {
    if n >= 10 {
      var t := Decimal(n);
      DecimalValueOf(n / 10);
      assert t[..|t| - 1] == Decimal(n / 10);
    }
  }

  /** A digit string without a leading zero is the canonical text of its value. */
  lemma {:induction false} DecimalOfValue(t: string)
    requires |t| > 0 && forall k | 0 <= k < |t| :: IsDigit(t[k])
    requires |t| > 1 ==> t[0] != '0'
    ensures Decimal(DecimalValue(t)) == t
    decreases |t|
  {
    if |t| > 1 {
      var p := t[..|t| - 1];
      DecimalOfValue(p);
      PositiveValue(p);
      var n := DecimalValue(t);
      assert n / 10 == DecimalValue(p);
      assert t == p + [t[|t| - 1]];
    }
  }

  /** A digit string not starting with zero has a positive value. */
  lemma {:induction false} PositiveValue(t: string)
    requires |t| > 0 && forall k | 0 <= k < |t| :: IsDigit(t[k])
    requires t[0] != '0'
    ensures DecimalValue(t) > 0
    decreases |t|
  {
    if |t| > 1 {
      PositiveValue(t[..|t| - 1]);
    }
  }

  /** Every octet's canonical text parses back to it. */
  lemma {:induction false} ParseOctetOf(n: nat)
    requires n < OctetBase
    ensures ParseOctet(Decimal(n)) == Some(n)
  {
    DecimalValueOf(n);
  }

  /** An octet that parses is in canonical form. */
  lemma {:induction false} OctetOfParse(t: string)
    requires ParseOctet(t).Some?
    ensures Decimal(ParseOctet(t).value) == t
  {
    DecimalOfValue(t);
  }

  /** Formatting then parsing gives the address back. */
  lemma {:induction false} ParseFormat(v: nat)
    requires v < AddressSpace
    ensures Parse(Format(v)) == Some(v)
  {
    var o := Octets(v);
    var parts := [Decimal(o[0]), Decimal(o[1]), Decimal(o[2]), Decimal(o[3])];
    forall k | 0 <= k < 4
      ensures '.' !in parts[k] && ParseOctet(parts[k]) == Some(o[k])
    {
      ParseOctetOf(o[k]);
    }
    SplitJoin(parts, '.');
  }

  /** Parsing then formatting gives the text back: the accepted syntax is
      canonical, so distinct strings denote distinct addresses. */
  lemma {:induction false} FormatParse(s: string)
    requires IsAddress(s)
    ensures Format(Parse(s).value) == s
  {
    var parts := Split(s, '.');
    var v := Parse(s).value;
    var o := Octets(v);
    forall k | 0 <= k < 4
      ensures ParseOctet(parts[k]) == Some(o[k])
    {
    }
    forall k | 0 <= k < 4
      ensures Decimal(o[k]) == parts[k]
    {
      OctetOfParse(parts[k]);
    }
    assert [Decimal(o[0]), Decimal(o[1]), Decimal(o[2]), Decimal(o[3])] == parts;
  }

  /** Two addresses with the same value are the same string. */
  lemma {:induction false} ParseInjective(s: string, t: string)
    requires IsAddress(s) && IsAddress(t) && Parse(s) == Parse(t)
    ensures s == t
  {
    FormatParse(s);
    FormatParse(t);
  }

  /** A dotted quad is made of digits and dots only. */
  lemma {:induction false} AddressChars(s: string)
    requires IsAddress(s)
    ensures forall k | 0 <= k < |s| :: IsDigit(s[k]) || s[k] == '.'
  {
    var parts := Split(s, '.');
    assert forall j | 0 <= j < 4 :: ParseOctet(parts[j]).Some?;
    forall k | 0 <= k < |s|
      ensures IsDigit(s[k]) || s[k] == '.'
    {
      JoinChars(parts, '.', s[k]);
      if s[k] != '.' {
        var j :| 0 <= j < |parts| && s[k] in parts[j];
        var i :| 0 <= i < |parts[j]| && parts[j][i] == s[k];
        assert IsDigit(parts[j][i]);
      }
    }
  }
}
