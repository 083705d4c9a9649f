/** The order of search candidates: (repo id, path, content sha), compared as rows. */
module Cursors {

  /** The candidate a page consumed last. */
  datatype FileCursor = FileCursor(repoId: int, path: string, sha: string)

  predicate TextLess(a: string, b: string)
    decreases |a|
  {
    b != "" && (a == "" || a[0] < b[0] || (a[0] == b[0] && TextLess(a[1..], b[1..])))
  }

  /** The texts agree up to `i`, and there `a` has the smaller character. */
  predicate SmallerAt(a: string, b: string, i: nat) {
    i < |a| && i < |b| && a[..i] == b[..i] && a[i] < b[i]
  }

  lemma SmallerLater(a: string, b: string, i: nat)
    requires a != "" && b != "" && a[0] == b[0]
    ensures SmallerAt(a, b, i + 1) <==> SmallerAt(a[1..], b[1..], i)
  {
    if i < |a| - 1 && i < |b| - 1 {
      assert a[..i + 1] == [a[0]] + a[1..][..i] && b[..i + 1] == [b[0]] + b[1..][..i];
    }
  }

  /** One text comes first exactly if it is a proper prefix of the other, or smaller where they first differ. */
  lemma {:induction false} TextLessExactlyWhen(a: string, b: string)
    ensures TextLess(a, b) <==> a < b || exists i | 0 <= i < |a| :: SmallerAt(a, b, i)
    decreases |a|
  {
    if a != "" && b != "" && a[0] == b[0] {
      TextLessExactlyWhen(a[1..], b[1..]);
      assert a == [a[0]] + a[1..] && b == [b[0]] + b[1..];
      assert !SmallerAt(a, b, 0);
      forall i | 0 <= i < |a| - 1
        ensures SmallerAt(a, b, i + 1) <==> SmallerAt(a[1..], b[1..], i)
      {
        SmallerLater(a, b, i);
      }
      hide SmallerAt;
      if i :| 0 <= i < |a| && SmallerAt(a, b, i) {
        assert SmallerAt(a[1..], b[1..], i - 1);
      }
    } else if a != "" && b != "" {
      assert SmallerAt(a, b, 0) <==> a[0] < b[0];
      assert forall i | 0 < i < |a| && i < |b| :: a[..i][0] == a[0] && b[..i][0] == b[0];
    }
  }

  predicate Less(a: FileCursor, b: FileCursor) {
    a.repoId < b.repoId
    || (a.repoId == b.repoId && (TextLess(a.path, b.path) || (a.path == b.path && TextLess(a.sha, b.sha))))
  }

  predicate AtMost(a: FileCursor, b: FileCursor) {
    a == b || Less(a, b)
  }

  lemma {:induction false} TextTotal(a: string, b: string)
    ensures a == b || TextLess(a, b) || TextLess(b, a)
    ensures !(TextLess(a, b) && TextLess(b, a)) && !TextLess(a, a)
    decreases |a|
  {
    if a != "" {
      TextTotal(a[1..], a[1..]);
      if b != "" {
        TextTotal(a[1..], b[1..]);
        if a[0] == b[0] && a[1..] == b[1..] {
          assert a == [a[0]] + a[1..] && b == [b[0]] + b[1..];
        }
      }
    }
  }

  lemma {:induction false} TextTransitive(a: string, b: string, c: string)
    requires TextLess(a, b) && TextLess(b, c)
    ensures TextLess(a, c)
    decreases |a|
  {
    if a != "" && a[0] == b[0] && b[0] == c[0] {
      TextTransitive(a[1..], b[1..], c[1..]);
    }
  }

  /** Exactly one of equal, before and after. */
  lemma Total(a: FileCursor, b: FileCursor)
    ensures a == b || Less(a, b) || Less(b, a)
    ensures !(Less(a, b) && Less(b, a)) && !Less(a, a)
  {
    TextTotal(a.path, b.path);
    TextTotal(a.sha, b.sha);
    TextTotal(a.path, a.path);
    TextTotal(a.sha, a.sha);
  }

  lemma Transitive(a: FileCursor, b: FileCursor, c: FileCursor)
    requires Less(a, b) && Less(b, c)
    ensures Less(a, c)
  {
    if a.repoId == b.repoId == c.repoId {
      TextTotal(a.path, a.path);
      if TextLess(a.path, b.path) && TextLess(b.path, c.path) {
        TextTransitive(a.path, b.path, c.path);
      }
      if a.path == b.path == c.path {
        TextTransitive(a.sha, b.sha, c.sha);
      }
    }
  }
}
