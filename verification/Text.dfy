/** White space and searching in strings. */
module Text {
  /** Unicode White_Space. */
  predicate IsSpace(c: char) {
    || '\t' <= c <= '\r' || c == ' '
    || c == '\U{85}' || c == '\U{A0}' || c == '\U{1680}' || '\U{2000}' <= c <= '\U{200A}'
    || c == '\U{2028}' || c == '\U{2029}' || c == '\U{202F}' || c == '\U{205F}' || c == '\U{3000}'
  }

  /** The code points of that property. */
  lemma SpacesAre(c: char)
    ensures IsSpace(c)
            <==> c as int in {9, 10, 11, 12, 13, 32, 133, 160, 5760, 8192, 8193, 8194, 8195, 8196, 8197, 8198, 8199,
                              8200, 8201, 8202, 8232, 8233, 8239, 8287, 12288}
  {
  }

  function TrimEnd(s: string): string {
    if s != [] && IsSpace(s[|s| - 1]) then TrimEnd(s[..|s| - 1]) else s
  }

  function TrimStart(s: string): string {
    if s != [] && IsSpace(s[0]) then TrimStart(s[1..]) else s
  }

  /** The index of the first `sep`, or the length. */
  function Position(s: string, sep: char): (i: nat)
    ensures i <= |s|
    ensures i < |s| ==> s[i] == sep
    ensures forall k :: 0 <= k < i ==> s[k] != sep
  {
    if s == [] || s[0] == sep then 0 else 1 + Position(s[1..], sep)
  }

  lemma PositionAt(s: string, i: nat, sep: char)
    requires i < |s| && s[i] == sep && forall k :: 0 <= k < i ==> s[k] != sep
    ensures Position(s, sep) == i
  {
  }

  // --- What trimming does ---

  ghost predicate AllSpace(s: string) {
    forall i :: 0 <= i < |s| ==> IsSpace(s[i])
  }

  /** No white space at either end. */
  ghost predicate Tight(s: string) {
    s != [] ==> !IsSpace(s[0]) && !IsSpace(s[|s| - 1])
  }

  /** `t` is what stands between white space in `s`. */
  ghost predicate Inside(s: string, t: string, left: string, right: string) {
    s == left + t + right && AllSpace(left) && AllSpace(right) && Tight(t)
  }

  lemma {:induction false} EndTrimmed(x: string, right: string)
    requires AllSpace(right) && (x != [] ==> !IsSpace(x[|x| - 1]))
    ensures TrimEnd(x + right) == x
    decreases |right|
  {
    if right == [] {
      assert x + right == x;
    } else {
      var n := |right| - 1;
      assert (x + right)[..|x + right| - 1] == x + right[..n];
      assert (x + right)[|x + right| - 1] == right[n];
      EndTrimmed(x, right[..n]);
    }
  }

  lemma {:induction false} StartTrimmed(left: string, x: string)
    requires AllSpace(left) && (x != [] ==> !IsSpace(x[0]))
    ensures TrimStart(left + x) == x
    decreases |left|
  {
    if left == [] {
      assert left + x == x;
    } else {
      assert (left + x)[1..] == left[1..] + x && (left + x)[0] == left[0];
      StartTrimmed(left[1..], x);
    }
  }

  lemma {:induction false} EndParts(s: string) returns (right: string)
    ensures s == TrimEnd(s) + right && AllSpace(right)
    ensures TrimEnd(s) != [] ==> !IsSpace(TrimEnd(s)[|TrimEnd(s)| - 1])
    decreases |s|
  {
    if s != [] && IsSpace(s[|s| - 1]) {
      right := EndParts(s[..|s| - 1]);
      right := right + [s[|s| - 1]];
    } else {
      right := [];
    }
  }

  lemma {:induction false} StartParts(s: string) returns (left: string)
    ensures s == left + TrimStart(s) && AllSpace(left)
    ensures TrimStart(s) != [] ==> !IsSpace(TrimStart(s)[0])
    decreases |s|
  {
    if s != [] && IsSpace(s[0]) {
      left := StartParts(s[1..]);
      left := [s[0]] + left;
    } else {
      left := [];
    }
  }

  /** White space goes from both ends, and nothing else does. */
  function Trim(s: string): string {
    TrimStart(TrimEnd(s))
  }

  lemma TrimsToInside(s: string, t: string, left: string, right: string)
    requires Inside(s, t, left, right)
    ensures Trim(s) == t
  {
    if t == [] {
      assert s == [] + (left + right);
      EndTrimmed([], left + right);
    } else {
      assert s == (left + t) + right;
      EndTrimmed(left + t, right);
      StartTrimmed(left, t);
    }
  }

  /** Trimming leaves exactly what stands between the white space at the ends. */
  lemma TrimExactly(s: string) returns (left: string, right: string)
    ensures Inside(s, Trim(s), left, right)
  {
    right := EndParts(s);
    left := StartParts(TrimEnd(s));
    var t := Trim(s);
    if t != [] {
      assert t[|t| - 1] == TrimEnd(s)[|TrimEnd(s)| - 1];
    }
  }
}
