/** Parsing of `a.b.c.d/prefix`, shared by the build script and the access list. */
module Cidr {
  import opened Wrappers
  import opened Numbers
  import opened Text

  datatype Prefix = Prefix(a: u8, b: u8, c: u8, d: u8, bits: u8)

  predicate IsDigit(c: char) {
    '0' <= c <= '9'
  }

  /** The value of a nonempty run of digits. */
  function Digits(s: string): Option<nat> {
    if s == [] || !IsDigit(s[|s| - 1]) then None
    else
      var last := s[|s| - 1] as int - '0' as int;
      if |s| == 1 then Some(last)
      else
        var init := Digits(s[..|s| - 1]);
        if init.None? then None else Some(10 * init.value + last)
  }

  /** Parsing an unsigned byte: one leading plus sign is allowed, leading zeros too. */
  function ParseU8(s: string): Option<u8> {
    var digits := if |s| > 1 && s[0] == '+' then s[1..] else s;
    var v := Digits(digits);
    if v.Some? && v.value < 256 then Some(v.value) else None
  }

  function Split(s: string, sep: char): (parts: seq<string>)
    ensures parts != []
    decreases |s|
  {
    var i := Position(s, sep);
    if i == |s| then [s] else [s[..i]] + Split(s[i + 1..], sep)
  }

  function ParseCidr(text: string): (r: Option<Prefix>)
    ensures r.Some? ==> r.value.bits <= 32
  {
    var s := Trim(text);
    var slash := Position(s, '/');
    if slash == |s| then None else PrefixOf(Split(s[..slash], '.'), s[slash + 1..])
  }

  /** Four octets and a length, all of them numbers that fit. */
  function PrefixOf(octets: seq<string>, length: string): (r: Option<Prefix>)
    ensures r.Some? ==> r.value.bits <= 32
  {
    var bits := ParseU8(length);
    if bits.None? || bits.value > 32 || |octets| != 4 then None
    else
      var (a, b, c, d) := (ParseU8(octets[0]), ParseU8(octets[1]), ParseU8(octets[2]), ParseU8(octets[3]));
      if a.None? || b.None? || c.None? || d.None? then None
      else Some(Prefix(a.value, b.value, c.value, d.value, bits.value))
  }

  // --- Printing, and the round trip ---

  function Decimal(n: nat): (s: string)
    ensures s != [] && forall k :: 0 <= k < |s| ==> IsDigit(s[k])
  {
    (if n < 10 then "" else Decimal(n / 10)) + [('0' as int + n % 10) as char]
  }

  function Format(p: Prefix): string {
    Decimal(p.a) + "." + (Decimal(p.b) + "." + (Decimal(p.c) + "." + Decimal(p.d))) + "/" + Decimal(p.bits)
  }

  lemma {:induction false} DigitsReadBack(n: nat)
    ensures Digits(Decimal(n)) == Some(n)
  {
    var s := Decimal(n);
    assert s[|s| - 1] == ('0' as int + n % 10) as char;
    if n >= 10 {
      DigitsReadBack(n / 10);
      assert s[..|s| - 1] == Decimal(n / 10);
    }
  }

  lemma ByteReadsBack(n: u8)
    ensures ParseU8(Decimal(n)) == Some(n)
  {
    DigitsReadBack(n);
  }

  lemma SplitHead(x: string, y: string, sep: char)
    requires sep !in x
    ensures Split(x + [sep] + y, sep) == [x] + Split(y, sep)
  {
    var s := x + [sep] + y;
    assert s[|x|] == sep;
    PositionAt(s, |x|, sep);
    assert s[..|x|] == x && s[|x| + 1..] == y;
  }

  lemma SplitLast(x: string, sep: char)
    requires sep !in x
    ensures Split(x, sep) == [x]
  {
  }

  lemma AddressSplits(a: string, b: string, c: string, d: string)
    requires '.' !in a && '.' !in b && '.' !in c && '.' !in d
    ensures Split(a + "." + (b + "." + (c + "." + d)), '.') == [a, b, c, d]
  {
    hide Split;
    SplitHead(a, b + "." + (c + "." + d), '.');
    SplitHead(b, c + "." + d, '.');
    SplitHead(c, d, '.');
    SplitLast(d, '.');
  }

  lemma ParsedParts(addr: string, bits: string)
    requires '/' !in addr && addr != [] && bits != []
    requires IsDigit(addr[0]) && IsDigit(bits[|bits| - 1])
    ensures var s := addr + "/" + bits;
            && Trim(s) == s
            && Position(s, '/') == |addr| && s[..|addr|] == addr && s[|addr| + 1..] == bits
  {
    var s := addr + "/" + bits;
    assert s[0] == addr[0] && s[|s| - 1] == bits[|bits| - 1] && s[|addr|] == '/';
    PositionAt(s, |addr|, '/');
  }

  /** Every prefix prints to a text that parses back to it. */
  lemma CidrRoundTrip(p: Prefix)
    requires p.bits <= 32
    ensures ParseCidr(Format(p)) == Some(p)
  {
    hide Decimal, ParseU8, Split, Position, Trim;
    var (a, b, c, d, bits) := (Decimal(p.a), Decimal(p.b), Decimal(p.c), Decimal(p.d), Decimal(p.bits));
    ParsedParts(a + "." + (b + "." + (c + "." + d)), bits);
    AddressSplits(a, b, c, d);
    ByteReadsBack(p.a);
    ByteReadsBack(p.b);
    ByteReadsBack(p.c);
    ByteReadsBack(p.d);
    ByteReadsBack(p.bits);
  }

  // --- Exactly what is accepted ---

  ghost function Pow10(n: nat): nat {
    if n == 0 then 1 else 10 * Pow10(n - 1)
  }

  predicate AllDigits(s: string) {
    forall i :: 0 <= i < |s| ==> IsDigit(s[i])
  }

  /** The value of digits by their places, from the left. */
  ghost function Places(s: string): nat
    requires AllDigits(s)
  {
    if s == [] then 0 else (s[0] as int - 0x30) * Pow10(|s| - 1) + Places(s[1..])
  }

  lemma {:induction false} LastPlace(s: string)
    requires AllDigits(s) && s != []
    ensures Places(s) == 10 * Places(s[..|s| - 1]) + s[|s| - 1] as int - 0x30
    decreases |s|
  {
    if |s| > 1 {
      var n := |s| - 1;
      LastPlace(s[1..]);
      assert s[1..][..n - 1] == s[..n][1..];
      Shifted(s[0] as int - 0x30, n - 1);
    } else {
      assert Pow10(0) == 1;
    }
  }

  lemma Shifted(d: nat, n: nat)
    ensures d * Pow10(n + 1) == 10 * (d * Pow10(n))
  {
    var p := Pow10(n);
    assert Pow10(n + 1) == 10 * p;
    assert d * (10 * p) == 10 * (d * p);
  }

  lemma {:induction false} DigitsExactly(s: string)
    ensures Digits(s) == if s != [] && AllDigits(s) then Some(Places(s)) else None
    decreases |s|
  {
    if s != [] && IsDigit(s[|s| - 1]) {
      var n := |s| - 1;
      DigitsExactly(s[..n]);
      if AllDigits(s) {
        LastPlace(s);
      } else if n > 0 {
        assert !AllDigits(s[..n]);
      }
    }
  }

  /** Digits worth less than 256, leading zeros and one leading plus sign allowed. */
  ghost predicate SpellsByte(s: string, v: int) {
    var digits := if |s| > 1 && s[0] == '+' then s[1..] else s;
    digits != [] && AllDigits(digits) && Places(digits) == v && v < 256
  }

  lemma ByteExactly(s: string, v: int)
    ensures (ParseU8(s).Some? && ParseU8(s).value == v) <==> SpellsByte(s, v)
  {
    DigitsExactly(if |s| > 1 && s[0] == '+' then s[1..] else s);
  }

  lemma ByteHasNoMarks(s: string, v: int)
    requires SpellsByte(s, v)
    ensures '.' !in s && '/' !in s && s != []
  {
    var digits := if |s| > 1 && s[0] == '+' then s[1..] else s;
    forall i | 0 <= i < |s| ensures s[i] != '.' && s[i] != '/' {
      if |s| > 1 && s[0] == '+' && i > 0 {
        assert s[i] == digits[i - 1];
      }
    }
  }

  ghost function Address(a: string, b: string, c: string, d: string): string {
    a + "." + (b + "." + (c + "." + d))
  }

  /** The text is four bytes between dots, a slash, and a prefix length up to 32. */
  ghost predicate Written(t: string, p: Prefix, a: string, b: string, c: string, d: string, bits: string) {
    && t == Address(a, b, c, d) + "/" + bits
    && SpellsByte(a, p.a) && SpellsByte(b, p.b) && SpellsByte(c, p.c) && SpellsByte(d, p.d)
    && SpellsByte(bits, p.bits) && p.bits <= 32
  }

  ghost function Joined(parts: seq<string>, sep: char): string
    requires parts != []
  {
    if |parts| == 1 then parts[0] else parts[0] + ([sep] + Joined(parts[1..], sep))
  }

  lemma {:induction false} SplitJoins(s: string, sep: char)
    ensures Joined(Split(s, sep), sep) == s
    decreases |s|
  {
    hide Split, Joined, Position;
    var i := Position(s, sep);
    if i == |s| {
      SplitLone(s, sep);
    } else {
      SplitUnfolds(s, sep);
      SplitJoins(s[i + 1..], sep);
      JoinedUnfolds(s[..i], Split(s[i + 1..], sep), sep);
      assert s == s[..i] + ([sep] + s[i + 1..]);
    }
  }

  lemma SplitLone(s: string, sep: char)
    requires Position(s, sep) == |s|
    ensures Split(s, sep) == [s] && Joined([s], sep) == s
  {
  }

  lemma SplitUnfolds(s: string, sep: char)
    requires Position(s, sep) < |s|
    ensures Split(s, sep) == [s[..Position(s, sep)]] + Split(s[Position(s, sep) + 1..], sep)
  {
  }

  lemma JoinedUnfolds(x: string, rest: seq<string>, sep: char)
    requires rest != []
    ensures Joined([x] + rest, sep) == x + ([sep] + Joined(rest, sep))
  {
    assert ([x] + rest)[1..] == rest;
  }

  lemma JoinedFour(q: seq<string>)
    requires |q| == 4
    ensures Joined(q, '.') == Address(q[0], q[1], q[2], q[3])
  {
    var (a, b, c, d) := (q[0], q[1], q[2], q[3]);
    assert q[1..][1..] == q[2..] && q[2..][1..] == q[3..];
    assert Joined(q[3..], '.') == d;
    assert Joined(q[2..], '.') == c + ("." + d);
    assert Joined(q[1..], '.') == b + ("." + (c + ("." + d)));
    assert b + ("." + (c + ("." + d))) == b + "." + (c + "." + d);
    assert a + ("." + (b + "." + (c + "." + d))) == Address(a, b, c, d);
  }

  lemma AddressHasNoSlash(a: string, b: string, c: string, d: string)
    requires '/' !in a && '/' !in b && '/' !in c && '/' !in d
    ensures '/' !in Address(a, b, c, d)
  {
  }

  lemma PrefixExactly(q: seq<string>, length: string, p: Prefix)
    requires |q| == 4
    ensures PrefixOf(q, length) == Some(p)
            <==> && SpellsByte(q[0], p.a) && SpellsByte(q[1], p.b) && SpellsByte(q[2], p.c) && SpellsByte(q[3], p.d)
                 && SpellsByte(length, p.bits) && p.bits <= 32
  {
    ByteExactly(q[0], p.a);
    ByteExactly(q[1], p.b);
    ByteExactly(q[2], p.c);
    ByteExactly(q[3], p.d);
    ByteExactly(length, p.bits);
    hide ParseU8, SpellsByte;
  }

  lemma WrittenParses(text: string, p: Prefix, a: string, b: string, c: string, d: string, bits: string)
    requires Written(Trim(text), p, a, b, c, d, bits)
    ensures ParseCidr(text) == Some(p)
  {
    hide PrefixOf, SpellsByte, Trim, Split, Position, Address;
    ByteHasNoMarks(a, p.a);
    ByteHasNoMarks(b, p.b);
    ByteHasNoMarks(c, p.c);
    ByteHasNoMarks(d, p.d);
    AddressHasNoSlash(a, b, c, d);
    AddressIsSplit(a, b, c, d);
    SlashAt(Address(a, b, c, d), bits);
    PrefixExactly([a, b, c, d], bits, p);
  }

  lemma AddressIsSplit(a: string, b: string, c: string, d: string)
    requires '.' !in a && '.' !in b && '.' !in c && '.' !in d
    ensures Split(Address(a, b, c, d), '.') == [a, b, c, d]
  {
    AddressSplits(a, b, c, d);
  }

  lemma SlashAt(addr: string, bits: string)
    requires '/' !in addr
    ensures var s := addr + "/" + bits;
            Position(s, '/') == |addr| && s[..|addr|] == addr && s[|addr| + 1..] == bits
  {
    var s := addr + "/" + bits;
    assert s[|addr|] == '/' && (forall k :: 0 <= k < |addr| ==> s[k] == addr[k]);
    PositionAt(s, |addr|, '/');
  }

  lemma ParsesWritten(text: string, p: Prefix) returns (a: string, b: string, c: string, d: string, bits: string)
    requires ParseCidr(text) == Some(p)
    ensures Written(Trim(text), p, a, b, c, d, bits)
  {
    hide PrefixOf, SpellsByte, Trim, Split, Address;
    var s := Trim(text);
    var slash := Position(s, '/');
    var q := Split(s[..slash], '.');
    bits := s[slash + 1..];
    FourOctets(q, bits, p);
    a, b, c, d := q[0], q[1], q[2], q[3];
    SplitJoins(s[..slash], '.');
    JoinedFour(q);
    assert s == s[..slash] + "/" + bits;
  }

  lemma FourOctets(q: seq<string>, length: string, p: Prefix)
    requires PrefixOf(q, length) == Some(p)
    ensures |q| == 4
    ensures SpellsByte(q[0], p.a) && SpellsByte(q[1], p.b) && SpellsByte(q[2], p.c) && SpellsByte(q[3], p.d)
    ensures SpellsByte(length, p.bits) && p.bits <= 32
  {
    PrefixExactly(q, length, p);
    hide SpellsByte, ParseU8;
  }

  /** A text parses to a prefix exactly when, without the white space at its ends, it is written that way. */
  lemma ParsedExactly(text: string, p: Prefix)
    ensures ParseCidr(text) == Some(p)
            <==> exists a: string, b: string, c: string, d: string, bits: string ::
                   Written(Trim(text), p, a, b, c, d, bits)
  {
    hide Written, ParseCidr, Trim;
    if ParseCidr(text) == Some(p) {
      var a, b, c, d, bits := ParsesWritten(text, p);
    }
    if a: string, b: string, c: string, d: string, bits: string :| Written(Trim(text), p, a, b, c, d, bits) {
      WrittenParses(text, p, a, b, c, d, bits);
    }
  }
}
