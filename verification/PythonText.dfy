/** Python's `str.strip`. */
module PythonText {

  /** What `str.strip` removes: wider than the scanner's own whitespace. */
  predicate IsPythonSpace(c: char) {
    || '\t' <= c <= '\r' || '\U{1c}' <= c <= ' ' || c == '\U{85}' || c == '\U{a0}' || c == '\U{1680}'
    || '\U{2000}' <= c <= '\U{200a}' || c == '\U{2028}' || c == '\U{2029}' || c == '\U{202f}' || c == '\U{205f}'
    || c == '\U{3000}'
  }

  function StripLeft(s: string): string
    decreases |s|
  {
    if s != "" && IsPythonSpace(s[0]) then StripLeft(s[1..]) else s
  }

  function StripRight(s: string): string
    decreases |s|
  {
    if s != "" && IsPythonSpace(s[|s| - 1]) then StripRight(s[..|s| - 1]) else s
  }

  function Strip(s: string): string {
    StripRight(StripLeft(s))
  }

  /** The code points that Python counts as whitespace. */
  predicate IsSpaceCode(code: int) {
    code in {9, 10, 11, 12, 13, 0x1c, 0x1d, 0x1e, 0x1f, 0x20, 0x85, 0xa0, 0x1680, 0x2028, 0x2029, 0x202f, 0x205f, 0x3000}
    || 0x2000 <= code < 0x200b
  }

  lemma SpacesAre(c: char)
    ensures IsPythonSpace(c) <==> IsSpaceCode(c as int)
  {
  }

  predicate AllSpace(s: string) {
    forall c <- s :: IsSpaceCode(c as int)
  }

  lemma {:induction false} StripLeftExactly(s: string) returns (front: string)
    ensures s == front + StripLeft(s) && AllSpace(front)
    ensures StripLeft(s) != "" ==> !IsPythonSpace(StripLeft(s)[0])
    decreases |s|
  {
    hide IsPythonSpace, IsSpaceCode;
    if s != "" && IsPythonSpace(s[0]) {
      SpacesAre(s[0]);
      front := StripLeftExactly(s[1..]);
      front := [s[0]] + front;
    } else {
      front := "";
    }
  }

  lemma {:induction false} StripRightExactly(s: string) returns (back: string)
    ensures s == StripRight(s) + back && AllSpace(back)
    ensures StripRight(s) != "" ==> !IsPythonSpace(StripRight(s)[|StripRight(s)| - 1])
    decreases |s|
  {
    hide IsPythonSpace, IsSpaceCode;
    if s != "" && IsPythonSpace(s[|s| - 1]) {
      SpacesAre(s[|s| - 1]);
      back := StripRightExactly(s[..|s| - 1]);
      back := back + [s[|s| - 1]];
    } else {
      back := "";
    }
  }

  /** Stripping takes whitespace off both ends, all of it and nothing else. */
  lemma StripExactly(s: string) returns (front: string, back: string)
    ensures s == front + Strip(s) + back && AllSpace(front) && AllSpace(back)
    ensures Strip(s) != "" ==> !IsSpaceCode(Strip(s)[0] as int) && !IsSpaceCode(Strip(s)[|Strip(s)| - 1] as int)
  {
    hide IsPythonSpace, IsSpaceCode, StripLeft, StripRight;
    front := StripLeftExactly(s);
    back := StripRightExactly(StripLeft(s));
    if Strip(s) != "" {
      assert Strip(s)[0] == StripLeft(s)[0];
      SpacesAre(Strip(s)[0]);
      SpacesAre(Strip(s)[|Strip(s)| - 1]);
    }
  }
}
