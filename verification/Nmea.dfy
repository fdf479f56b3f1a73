/**
 NMEA framing and line assembly: the sentence printer, the chunked line loop of
 the UART reader, and the checksum validator undo each other.

 Text is a sequence of characters; a read chunk arrives already decoded, or
 marked as not being UTF-8.
 */
module Nmea {
  import opened Wrappers
  import opened Bits
  import opened Text

  // --- The checksum ---

  predicate IsAscii(s: string) {
    forall i :: 0 <= i < |s| ==> s[i] < 128 as char
  }

  /** The exclusive or of the bytes of an ASCII text. */
  function Checksum(s: string): nat {
    if s == [] then 0 else Xor(Checksum(s[..|s| - 1]), s[|s| - 1] as int)
  }

  lemma {:induction false} ChecksumIsByte(s: string)
    requires IsAscii(s)
    ensures Checksum(s) < 128
  {
    if s != [] {
      ChecksumIsByte(s[..|s| - 1]);
      assert Pow2(7) == 128 by { assert Pow2(3) == 8 && Pow2(5) == 32; }
      XorBounded(Checksum(s[..|s| - 1]), s[|s| - 1] as int, 7);
    }
  }

  /** How many characters have bit `k` set. */
  ghost function Ones(s: string, k: nat): nat {
    if s == [] then 0 else Bit(s[0] as int, k) + Ones(s[1..], k)
  }

  lemma {:induction false} OnesAtTheEnd(s: string, k: nat)
    requires s != []
    ensures Ones(s, k) == Ones(s[..|s| - 1], k) + Bit(s[|s| - 1] as int, k)
    decreases |s|
  {
    if |s| > 1 {
      OnesAtTheEnd(s[1..], k);
      assert s[1..][..|s| - 2] == s[..|s| - 1][1..];
    }
  }

  /** Every bit of the checksum is the parity of that bit over the characters. */
  lemma {:induction false} ChecksumIsParity(s: string, k: nat)
    ensures Bit(Checksum(s), k) == Ones(s, k) % 2
    decreases |s|
  {
    hide Bit, Xor;
    if s == [] {
      NoBits(k);
    } else {
      OnesAtTheEnd(s, k);
      ChecksumIsParity(s[..|s| - 1], k);
      XorBit(Checksum(s[..|s| - 1]), s[|s| - 1] as int, k);
    }
  }

  lemma NoBits(k: nat)
    ensures Bit(0, k) == 0
  {
  }

  /** Changing any one byte changes the checksum. */
  lemma {:induction false} ChecksumDetectsChange(s: string, k: nat, c: char)
    requires k < |s| && c != s[k]
    ensures Checksum(s[k := c]) != Checksum(s)
    decreases |s|
  {
    var n := |s| - 1;
    var init, init' := Checksum(s[..n]), Checksum(s[k := c][..n]);
    if k == n {
      assert s[k := c][..n] == s[..n];
      if Checksum(s[k := c]) == Checksum(s) {
        XorInjective(init, s[n] as int, c as int);
      }
    } else {
      ChecksumDetectsChange(s[..n], k, c);
      assert s[k := c][..n] == s[..n][k := c];
      if Checksum(s[k := c]) == Checksum(s) {
        XorSymmetric(init, s[n] as int);
        XorSymmetric(init', s[n] as int);
        XorInjective(s[n] as int, init, init');
      }
    }
  }

  // --- Framing ---

  function HexDigit(n: nat): char
    requires n < 16
  {
    "0123456789ABCDEF"[n]
  }

  /** The sentence inside a frame: dollar sign, body, star and two hexadecimal digits. */
  function Sentence(body: string): string
    requires IsAscii(body)
  {
    ChecksumIsByte(body);
    "$" + body + "*" + [HexDigit(Checksum(body) / 16), HexDigit(Checksum(body) % 16)]
  }

  function Frame(body: string): string
    requires IsAscii(body)
  {
    Sentence(body) + "\r\n"
  }

  /** A frame is a dollar sign, the body, a star, the checksum in two upper-case digits, and a line end. */
  lemma FrameExactly(body: string)
    requires IsAscii(body)
    ensures exists high: char, low: char ::
              && Frame(body) == "$" + body + "*" + [high, low] + "\r\n"
              && UpperFor(high, Checksum(body) / 16) && UpperFor(low, Checksum(body) % 16)
  {
    var n := Checksum(body);
    ChecksumIsByte(body);
    HexDigitIs(n / 16);
    HexDigitIs(n % 16);
    var (high, low) := (HexDigit(n / 16), HexDigit(n % 16));
    assert Frame(body) == "$" + body + "*" + [high, low] + "\r\n";
    assert UpperFor(high, n / 16) && UpperFor(low, n % 16);
  }

  /** A hexadecimal digit in upper case. */
  ghost predicate UpperFor(c: char, d: int) {
    (0 <= d < 10 && c as int == 0x30 + d) || (10 <= d < 16 && c as int == 0x41 + d - 10)
  }

  // --- Validation ---

  function HexValue(c: char): Option<nat> {
    if '0' <= c <= '9' then Some(c as int - '0' as int)
    else if 'A' <= c <= 'F' then Some(c as int - 'A' as int + 10)
    else if 'a' <= c <= 'f' then Some(c as int - 'a' as int + 10)
    else None
  }

  /** Radix-16 parsing of two characters; a leading plus sign is allowed. */
  function ParseHex2(a: char, b: char): Option<nat> {
    if HexValue(b).None? then None
    else if a == '+' then HexValue(b)
    else if HexValue(a).None? then None
    else Some(16 * HexValue(a).value + HexValue(b).value)
  }

  /** The index of the last star, or the length. */
  function LastStar(s: string): (i: nat)
    ensures i <= |s|
    ensures i < |s| ==> s[i] == '*' && forall k :: i < k < |s| ==> s[k] != '*'
    ensures i == |s| ==> forall k :: 0 <= k < |s| ==> s[k] != '*'
  {
    if s == [] then 0
    else if s[|s| - 1] == '*' then |s| - 1
    else
      var i := LastStar(s[..|s| - 1]);
      if i == |s| - 1 then |s| else i
  }

  predicate ChecksumValid(s: string) {
    && IsAscii(s)
    && s != [] && s[0] == '$'
    && var star := LastStar(s);
    && star + 3 <= |s|
    && var expected := ParseHex2(s[star + 1], s[star + 2]);
    && expected.Some? && Checksum(s[1..star]) == expected.value
  }

  lemma HexReadsBack(n: nat)
    requires n < 256
    ensures ParseHex2(HexDigit(n / 16), HexDigit(n % 16)) == Some(n)
    ensures HexDigit(n / 16) != '*' && HexDigit(n % 16) != '*'
  {
    DigitReadsBack(n / 16);
    DigitReadsBack(n % 16);
  }

  lemma DigitReadsBack(d: nat)
    requires d < 16
    ensures HexValue(HexDigit(d)) == Some(d) && HexDigit(d) != '*' && HexDigit(d) != '+' && HexDigit(d) < 128 as char
    ensures !IsSpace(HexDigit(d)) && HexDigit(d) != '\n' && HexDigit(d) != '\r'
  {
    assert d == 0 || d == 1 || d == 2 || d == 3 || d == 4 || d == 5 || d == 6 || d == 7
        || d == 8 || d == 9 || d == 10 || d == 11 || d == 12 || d == 13 || d == 14 || d == 15;
  }

  lemma LastStarAt(s: string, i: nat)
    requires i < |s| && s[i] == '*' && forall k :: i < k < |s| ==> s[k] != '*'
    ensures LastStar(s) == i
  {
  }

  /** The validator reads the body and the two digits back out of any sentence with these parts. */
  lemma ValidExactlyWhenChecksumMatches(body: string, n: nat)
    requires IsAscii(body) && n < 256
    ensures ChecksumValid("$" + body + "*" + [HexDigit(n / 16), HexDigit(n % 16)]) <==> Checksum(body) == n
  {
    var (high, low) := (HexDigit(n / 16), HexDigit(n % 16));
    HexReadsBack(n);
    DigitReadsBack(n / 16);
    DigitReadsBack(n % 16);
    hide HexDigit, ParseHex2, LastStar, Checksum;
    ValidParts(body, high, low);
  }

  lemma ValidParts(body: string, high: char, low: char)
    requires IsAscii(body) && high < 128 as char && low < 128 as char && high != '*' && low != '*'
    ensures ChecksumValid("$" + body + "*" + [high, low]) <==> ParseHex2(high, low) == Some(Checksum(body))
  {
    var s := "$" + body + "*" + [high, low];
    hide ParseHex2, LastStar, Checksum;
    assert s[|body| + 1] == '*' && s[|body| + 2] == high && s[|body| + 3] == low;
    LastStarAt(s, |body| + 1);
    assert s[1..|body| + 1] == body;
    assert IsAscii(s);
  }

  /** The digit printed for a value: upper case. */
  lemma HexDigitIs(d: nat)
    requires d < 16
    ensures HexDigit(d) as int == if d < 10 then 0x30 + d else 0x41 + d - 10
  {
    assert d == 0 || d == 1 || d == 2 || d == 3 || d == 4 || d == 5 || d == 6 || d == 7
        || d == 8 || d == 9 || d == 10 || d == 11 || d == 12 || d == 13 || d == 14 || d == 15;
  }

  /** A hexadecimal digit in either case. */
  ghost predicate HexFor(c: char, d: int) {
    || (0 <= d < 10 && c as int == 0x30 + d)
    || (10 <= d < 16 && (c as int == 0x41 + d - 10 || c as int == 0x61 + d - 10))
  }

  /** Two digits in either case, or a plus sign and one. */
  ghost predicate Spells(a: char, b: char, n: nat) {
    HexFor(b, n % 16) && (HexFor(a, n / 16) || (a == '+' && n < 16))
  }

  lemma ParsesWhatItSpells(a: char, b: char, n: nat)
    ensures ParseHex2(a, b) == Some(n) <==> Spells(a, b, n)
  {
    HexValueFor(a, n / 16);
    HexValueFor(b, n % 16);
    hide HexFor, HexValue;
    if HexValue(a).Some? && HexValue(b).Some? {
      HexValueFor(a, HexValue(a).value);
      HexValueFor(b, HexValue(b).value);
      DigitsSplit(HexValue(a).value, HexValue(b).value, n);
    }
    if HexValue(b).Some? {
      HexValueFor(b, HexValue(b).value);
    }
  }

  lemma HexValueFor(c: char, d: nat)
    ensures HexValue(c) == Some(d) <==> HexFor(c, d)
    ensures HexValue(c).Some? ==> HexValue(c).value < 16
    ensures c == '+' ==> HexValue(c).None?
  {
  }

  lemma DigitsSplit(high: nat, low: nat, n: nat)
    requires low < 16
    ensures n == 16 * high + low <==> n / 16 == high && n % 16 == low
  {
  }

  /** The star at `i` is the last, and the two characters after it spell the checksum of what it ends. */
  ghost predicate ValidAt(s: string, i: nat) {
    && IsAscii(s) && 1 <= i && i + 3 <= |s| && s[0] == '$' && s[i] == '*'
    && (forall k :: i < k < |s| ==> s[k] != '*')
    && Spells(s[i + 1], s[i + 2], Checksum(s[1..i]))
  }

  /** A text validates exactly when its last star is one of those. */
  lemma ValidExactly(s: string)
    ensures ChecksumValid(s) <==> exists i: nat :: ValidAt(s, i)
  {
    if ChecksumValid(s) {
      var i := LastStar(s);
      ParsesWhatItSpells(s[i + 1], s[i + 2], Checksum(s[1..i]));
      hide Checksum, ParseHex2, Spells;
      assert ValidAt(s, i);
    }
    if i: nat :| ValidAt(s, i) {
      LastStarAt(s, i);
      ParsesWhatItSpells(s[i + 1], s[i + 2], Checksum(s[1..i]));
    }
  }

  /** A framed sentence passes; with any one body byte changed, it fails. */
  lemma SentenceChecks(body: string, k: nat, c: char)
    requires IsAscii(body)
    ensures ChecksumValid(Sentence(body))
    ensures k < |body| && c != body[k] && c < 128 as char ==> !ChecksumValid(Sentence(body)[k + 1 := c])
  {
    ChecksumIsByte(body);
    var n := Checksum(body);
    ValidExactlyWhenChecksumMatches(body, n);
    if k < |body| && c != body[k] && c < 128 as char {
      ChecksumDetectsChange(body, k, c);
      ValidExactlyWhenChecksumMatches(body[k := c], n);
      assert Sentence(body)[k + 1 := c] == "$" + body[k := c] + "*" + [HexDigit(n / 16), HexDigit(n % 16)];
    }
  }

  // --- The line loop ---

  /** Trailing carriage returns go first, then white space at both ends. */
  function TrimLine(s: string): string {
    Trim(TrimCr(s))
  }

  function TrimCr(s: string): string {
    if s != [] && s[|s| - 1] == '\r' then TrimCr(s[..|s| - 1]) else s
  }

  predicate IsSentence(line: string) {
    line != [] && line[0] == '$'
  }

  /** What one complete line contributes: the trimmed line when it starts a sentence. */
  function LineOutput(line: string): seq<string> {
    if IsSentence(TrimLine(line)) then [TrimLine(line)] else []
  }

  /** The sentences of all complete lines, and the text after the last newline. */
  function Lines(s: string): (seq<string>, string)
    decreases |s|
  {
    var i := Position(s, '\n');
    if i == |s| then ([], s)
    else
      var (later, rest) := Lines(s[i + 1..]);
      (LineOutput(s[..i]) + later, rest)
  }

  lemma LinesUnfold(s: string)
    ensures var i := Position(s, '\n');
            Lines(s) == if i == |s| then ([], s)
                        else (LineOutput(s[..i]) + Lines(s[i + 1..]).0, Lines(s[i + 1..]).1)
  {
    hide LineOutput, Position;
  }

  lemma Regroup(a: seq<string>, b: seq<string>, c: seq<string>)
    ensures a + (b + c) == a + b + c && [] + a == a
  {
  }

  /** Taking carriage returns off first changes nothing: they are white space. */
  lemma {:induction false} TrimLineIsTrim(s: string)
    ensures TrimLine(s) == Trim(s)
    decreases |s|
  {
    if s != [] && s[|s| - 1] == '\r' {
      TrimLineIsTrim(s[..|s| - 1]);
    }
  }

  /** The lines that, without the white space at their ends, start with a dollar sign. */
  ghost function DollarLines(lines: seq<string>): seq<string> {
    if lines == [] then []
    else
      var t := Trim(lines[0]);
      (if t != [] && t[0] == '$' then [t] else []) + DollarLines(lines[1..])
  }

  ghost function Terminated(lines: seq<string>): string {
    if lines == [] then "" else lines[0] + "\n" + Terminated(lines[1..])
  }

  /** Of any lines, those come out, trimmed and in order, and only those; an unfinished line waits. */
  lemma {:induction false} DollarLinesComeOut(lines: seq<string>, rest: string)
    requires '\n' !in rest && forall l :: l in lines ==> '\n' !in l
    ensures Lines(Terminated(lines) + rest) == (DollarLines(lines), rest)
    decreases |lines|
  {
    hide Trim, TrimLine;
    if lines == [] {
      assert Terminated(lines) + rest == rest;
    } else {
      var (l, more) := (lines[0], Terminated(lines[1..]) + rest);
      var s := Terminated(lines) + rest;
      assert s == l + "\n" + more;
      assert s[|l|] == '\n' && '\n' !in l;
      assert forall k :: 0 <= k < |l| ==> s[k] == l[k];
      PositionAt(s, |l|, '\n');
      assert s[..|l|] == l && s[|l| + 1..] == more;
      TrimLineIsTrim(l);
      DollarLinesComeOut(lines[1..], rest);
    }
  }

  datatype Chunk = Text(text: string) | NotUtf8

  /** The UART reader: text after the last newline waits in `lineBuf` for its line to end. */
  class LineReader {
    var lineBuf: string

    constructor ()
      ensures lineBuf == ""
    {
      lineBuf := "";
    }

    /** One read: the sentences handed to the parsers, in order. */
    method Poll(chunk: Chunk) returns (sentences: seq<string>)
      modifies this
      ensures chunk.NotUtf8? ==> sentences == [] && lineBuf == old(lineBuf)
      ensures chunk.Text? ==> (sentences, lineBuf) == Lines(old(lineBuf) + chunk.text)
    {
      sentences := [];
      if chunk.NotUtf8? {
        return;
      }
      lineBuf := lineBuf + chunk.text;
      ghost var all := lineBuf;
      var newline := Position(lineBuf, '\n');
      hide TrimLine, Lines, Position;
      Regroup(Lines(all).0, [], []);
      while newline < |lineBuf|
        invariant newline == Position(lineBuf, '\n')
        invariant Lines(all) == (sentences + Lines(lineBuf).0, Lines(lineBuf).1)
        decreases |lineBuf|
      {
        LinesUnfold(lineBuf);
        Regroup(sentences, LineOutput(lineBuf[..newline]), Lines(lineBuf[newline + 1..]).0);
        assert sentences + [] == sentences;
        var pendingLine := TrimLine(lineBuf[..newline]);
        if IsSentence(pendingLine) {
          sentences := sentences + [pendingLine];
        }
        lineBuf := lineBuf[newline + 1..];
        newline := Position(lineBuf, '\n');
      }
      LinesUnfold(lineBuf);
      assert sentences + [] == sentences;
    }

    /** A backlog is dropped before the first poll. */
    method DiscardBacklog()
      modifies this
      ensures lineBuf == ""
    {
      lineBuf := "";
    }
  }

  // --- Any chunking ---

  /** Everything a sequence of reads hands out, and what it leaves waiting. */
  function Fed(buf: string, chunks: seq<string>): (seq<string>, string)
    decreases |chunks|
  {
    if chunks == [] then ([], buf)
    else
      var (first, rest) := Lines(buf + chunks[0]);
      var (later, left) := Fed(rest, chunks[1..]);
      (first + later, left)
  }

  function Joined(parts: seq<string>): string {
    if parts == [] then "" else parts[0] + Joined(parts[1..])
  }

  /** Text that arrives later only completes the waiting line. */
  lemma {:induction false} LinesSplit(s: string, t: string)
    ensures Lines(s + t) == (Lines(s).0 + Lines(Lines(s).1 + t).0, Lines(Lines(s).1 + t).1)
    decreases |s|
  {
    hide Lines, LineOutput;
    var i := Position(s, '\n');
    LinesUnfold(s);
    if i < |s| {
      assert (s + t)[i] == '\n';
      PositionAt(s + t, i, '\n');
      LinesUnfold(s + t);
      assert (s + t)[..i] == s[..i] && (s + t)[i + 1..] == s[i + 1..] + t;
      LinesSplit(s[i + 1..], t);
      Regroup(LineOutput(s[..i]), Lines(s[i + 1..]).0, Lines(Lines(s).1 + t).0);
    } else {
      Regroup(Lines(s + t).0, [], []);
    }
  }

  lemma {:induction false} LinesLeaveNoNewline(s: string)
    ensures Position(Lines(s).1, '\n') == |Lines(s).1|
    decreases |s|
  {
    hide LineOutput;
    var i := Position(s, '\n');
    if i < |s| {
      LinesLeaveNoNewline(s[i + 1..]);
    }
  }

  /** However a stream is split into reads, it is taken apart as if it came in one piece. */
  lemma {:induction false} ChunkingIsInvisible(buf: string, chunks: seq<string>)
    requires Position(buf, '\n') == |buf|
    ensures Fed(buf, chunks) == Lines(buf + Joined(chunks))
    decreases |chunks|
  {
    hide LineOutput, Position, Lines;
    if chunks == [] {
      assert buf + "" == buf;
      LinesUnfold(buf);
    } else {
      var s, t := buf + chunks[0], Joined(chunks[1..]);
      LinesLeaveNoNewline(s);
      ChunkingIsInvisible(Lines(s).1, chunks[1..]);
      LinesSplit(s, t);
      assert s + t == buf + Joined(chunks);
    }
  }

  // --- Round trip ---

  function Frames(bodies: seq<string>): string
    requires forall b :: b in bodies ==> IsAscii(b)
  {
    if bodies == [] then "" else Frame(bodies[0]) + Frames(bodies[1..])
  }

  function Sentences(bodies: seq<string>): seq<string>
    requires forall b :: b in bodies ==> IsAscii(b)
  {
    if bodies == [] then [] else [Sentence(bodies[0])] + Sentences(bodies[1..])
  }

  /** A sentence with its carriage return trims back to itself, whatever its body. */
  lemma SentenceSurvivesTrimming(s: string)
    requires s != [] && s[0] == '$' && !IsSpace(s[|s| - 1])
    ensures TrimLine(s + "\r") == s
  {
    assert (s + "\r")[..|s|] == s;
    assert TrimCr(s + "\r") == TrimCr(s) == s;
  }

  lemma FrameIsOneLine(body: string)
    requires IsAscii(body) && '\n' !in body
    ensures Position(Frame(body), '\n') == |Frame(body)| - 1
    ensures LineOutput(Frame(body)[..|Frame(body)| - 1]) == [Sentence(body)]
  {
    var (f, n) := (Frame(body), Checksum(body));
    ChecksumIsByte(body);
    DigitReadsBack(n / 16);
    DigitReadsBack(n % 16);
    var s := Sentence(body);
    assert f[..|f| - 1] == s + "\r";
    assert s[|s| - 1] == HexDigit(n % 16) && s[0] == '$';
    SentenceSurvivesTrimming(s);
    assert f[|f| - 1] == '\n';
    PositionAt(f, |f| - 1, '\n');
  }

  lemma {:induction false} FramesAreLines(bodies: seq<string>)
    requires forall b :: b in bodies ==> IsAscii(b) && '\n' !in b
    ensures Lines(Frames(bodies)) == (Sentences(bodies), "")
    decreases |bodies|
  {
    if bodies != [] {
      var (f, t) := (Frame(bodies[0]), Frames(bodies[1..]));
      FrameIsOneLine(bodies[0]);
      FramesAreLines(bodies[1..]);
      var i := |f| - 1;
      assert (f + t)[i] == '\n';
      PositionAt(f + t, i, '\n');
      assert (f + t)[..i] == f[..i] && (f + t)[i + 1..] == t;
    }
  }

  /**
   Any list of ASCII bodies without newline, framed, concatenated and split into
   arbitrary reads, comes out as exactly those sentences in order, with nothing
   left waiting.
   */
  lemma FramingRoundTrip(bodies: seq<string>, chunks: seq<string>)
    requires forall b :: b in bodies ==> IsAscii(b) && '\n' !in b
    requires Joined(chunks) == Frames(bodies)
    ensures Fed("", chunks) == (Sentences(bodies), "")
  {
    ChunkingIsInvisible("", chunks);
    assert "" + Joined(chunks) == Frames(bodies);
    FramesAreLines(bodies);
  }

  /** The k-th sentence out is the k-th body's, and it validates. */
  lemma {:induction false} EverySentenceChecks(bodies: seq<string>, k: nat)
    requires forall b :: b in bodies ==> IsAscii(b) && '\n' !in b
    requires k < |bodies|
    ensures |Sentences(bodies)| == |bodies| && Sentences(bodies)[k] == Sentence(bodies[k])
    ensures ChecksumValid(Sentences(bodies)[k])
    decreases |bodies|
  {
    SentenceChecks(bodies[k], 0, ' ');
    if |bodies| > 1 {
      EverySentenceChecks(bodies[1..], if k > 0 then k - 1 else 0);
    } else {
      assert Sentences(bodies[1..]) == [];
    }
  }

  lemma OneLine(f: string, s: string)
    requires f != [] && Position(f, '\n') == |f| - 1 && TrimLine(f[..|f| - 1]) == s && IsSentence(s)
    ensures Lines(f) == ([s], "")
  {
    hide TrimLine, TrimCr;
    assert f[|f|..] == "" && Lines("") == ([], "");
    assert [s] + [] == [s];
  }

  /** With a body byte changed, a frame is still one sentence and its line end. */
  lemma DamagedFrame(body: string, k: nat, c: char)
    requires IsAscii(body) && '\n' !in body && k < |body| && c != '\n'
    ensures var s' := Sentence(body)[k + 1 := c];
            && Frame(body)[k + 1 := c] == s' + "\r\n"
            && s'[0] == '$' && !IsSpace(s'[|s'| - 1]) && '\n' !in s'
  {
    var n := Checksum(body);
    ChecksumIsByte(body);
    DigitReadsBack(n / 16);
    DigitReadsBack(n % 16);
  }

  /** A body byte changed on the wire: the damaged line still comes out in its place, and fails its check. */
  lemma CorruptionIsCaught(body: string, k: nat, c: char)
    requires IsAscii(body) && '\n' !in body && k < |body|
    requires c != body[k] && c < 128 as char && c != '\n'
    ensures Lines(Frame(body)[k + 1 := c]) == ([Sentence(body)[k + 1 := c]], "")
    ensures !ChecksumValid(Sentence(body)[k + 1 := c])
  {
    DamagedFrame(body, k, c);
    SentenceChecks(body, k, c);
    LineIsTaken(Sentence(body)[k + 1 := c]);
  }

  /** A sentence with its line end is one line, handed out as it is. */
  lemma LineIsTaken(s: string)
    requires s != [] && s[0] == '$' && !IsSpace(s[|s| - 1]) && '\n' !in s
    ensures Lines(s + "\r\n") == ([s], "")
  {
    var f := s + "\r\n";
    hide TrimLine, Lines, Position;
    assert f[..|f| - 1] == s + "\r";
    SentenceSurvivesTrimming(s);
    PositionAt(f, |f| - 1, '\n');
    OneLine(f, s);
  }

  /**
   Damage stays in its line: with one body byte of one frame changed on the
   wire, whatever the chunking, every other sentence comes out intact and in
   place, and the damaged one comes out in its place and fails its check.
   */
  lemma DamageIsContained(before: seq<string>, body: string, after: seq<string>, k: nat, c: char, chunks: seq<string>)
    requires forall b :: b in before ==> IsAscii(b) && '\n' !in b
    requires forall b :: b in after ==> IsAscii(b) && '\n' !in b
    requires IsAscii(body) && '\n' !in body && k < |body|
    requires c != body[k] && c < 128 as char && c != '\n'
    requires Joined(chunks) == Frames(before) + (Frame(body)[k + 1 := c] + Frames(after))
    ensures Fed("", chunks) == (Sentences(before) + ([Sentence(body)[k + 1 := c]] + Sentences(after)), "")
    ensures !ChecksumValid(Sentence(body)[k + 1 := c])
  {
    var damaged := Frame(body)[k + 1 := c];
    hide Lines, Frames, Frame, Sentence, Sentences, ChecksumValid, Fed, Joined;
    ChunkingIsInvisible("", chunks);
    assert "" + Joined(chunks) == Joined(chunks);
    FramesAreLines(before);
    FramesAreLines(after);
    CorruptionIsCaught(body, k, c);
    LinesSplit(Frames(before), damaged + Frames(after));
    assert "" + (damaged + Frames(after)) == damaged + Frames(after);
    LinesSplit(damaged, Frames(after));
    assert "" + Frames(after) == Frames(after);
  }
}
