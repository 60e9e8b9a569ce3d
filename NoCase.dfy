/** SQLite's NOCASE collation, which the `name` column of the Podcast table
    declares: ASCII capitals fold to lower case, every other character is kept,
    and the folded texts compare by their characters and then by length.
    (SQLite compares UTF-8 bytes; for well-formed text that order is the
    order of the code points, which is what `<` on `char` compares.) */
module NoCase {

  function FoldChar(c: char): (f: char)
    ensures 'A' <= c <= 'Z' ==> f as int == c as int + 32
    ensures !('A' <= c <= 'Z') ==> f == c
  {
    if 'A' <= c <= 'Z' then (c as int + 32) as char else c
  }

  /** The text with every ASCII capital folded to lower case. */
  function Fold(s: string): (f: string)
    ensures |f| == |s|
    ensures forall i :: 0 <= i < |s| ==> f[i] == FoldChar(s[i])
  {
    if s == [] then [] else [FoldChar(s[0])] + Fold(s[1..])
  }

  /** Binary lexicographic order: the first differing character decides, and a
      proper prefix comes first. */
  predicate LexLess(a: string, b: string)
    decreases |a|
  {
    |b| > 0 && (|a| == 0 || a[0] < b[0] || (a[0] == b[0] && LexLess(a[1..], b[1..])))
  }

  /** `a` sorts strictly before `b` under NOCASE. */
  predicate NoCaseLess(a: string, b: string)
  {
    LexLess(Fold(a), Fold(b))
  }

  /** `a` and `b` are equal under NOCASE. */
  predicate NoCaseEqual(a: string, b: string)
  {
    Fold(a) == Fold(b)
  }

  /** The first position where two texts differ, if they differ at all within
      their common length. */
  predicate DifferFirstAt(a: string, b: string, k: int)
  {
    0 <= k < |a| && k < |b| && a[..k] == b[..k] && a[k] != b[k]
  }

  lemma {:induction false} LexLessMeaning(a: string, b: string)
    ensures LexLess(a, b) <==>
      (|a| < |b| && a == b[..|a|]) || (exists k :: DifferFirstAt(a, b, k) && a[k] < b[k])
    decreases |a|
  {
    if |a| > 0 && |b| > 0 {
      LexLessMeaning(a[1..], b[1..]);
      if a[0] == b[0] {
        if exists k :: DifferFirstAt(a[1..], b[1..], k) && a[1..][k] < b[1..][k] {
          var k :| DifferFirstAt(a[1..], b[1..], k) && a[1..][k] < b[1..][k];
          assert a[..k + 1] == [a[0]] + a[1..][..k];
          assert b[..k + 1] == [b[0]] + b[1..][..k];
          assert DifferFirstAt(a, b, k + 1);
        }
        if exists k :: DifferFirstAt(a, b, k) && a[k] < b[k] {
          var k :| DifferFirstAt(a, b, k) && a[k] < b[k];
          assert k != 0;
          assert a[1..][..k - 1] == a[..k][1..];
          assert b[1..][..k - 1] == b[..k][1..];
          assert DifferFirstAt(a[1..], b[1..], k - 1);
        }
        if |a| < |b| && a == b[..|a|] {
          assert a[1..] == b[1..][..|a[1..]|];
        }
      } else {
        assert DifferFirstAt(a, b, 0);
        if exists k :: DifferFirstAt(a, b, k) && a[k] < b[k] {
          var k :| DifferFirstAt(a, b, k) && a[k] < b[k];
          if k > 0 {
            assert a[..k][0] == b[..k][0];
          }
        }
      }
    }
  }

  lemma {:induction false} LexLessIrreflexive(a: string)
    ensures !LexLess(a, a)
    decreases |a|
  {
    if |a| > 0 {
      LexLessIrreflexive(a[1..]);
    }
  }

  lemma {:induction false} LexLessTransitive(a: string, b: string, c: string)
    requires LexLess(a, b) && LexLess(b, c)
    ensures LexLess(a, c)
    decreases |a|
  {
    if |a| > 0 && a[0] == b[0] && b[0] == c[0] {
      LexLessTransitive(a[1..], b[1..], c[1..]);
    }
  }

  lemma {:induction false} LexLessTotal(a: string, b: string)
    requires a != b
    ensures LexLess(a, b) || LexLess(b, a)
    decreases |a|
  {
    if |a| > 0 && |b| > 0 && a[0] == b[0] {
      assert a == [a[0]] + a[1..] && b == [b[0]] + b[1..];
      LexLessTotal(a[1..], b[1..]);
    }
  }
}
