/** Python's ordering of strings (code point by code point, a proper prefix
    first), `str.startswith`, and the two queries the order table is read
    with: all codes in ascending order and the greatest code. */
module Lex {

  /** `a < b` on Python strings; a proper prefix sorts first. */
  predicate Below(a: string, b: string)
  {
    |b| > 0 && (|a| == 0 || a[0] < b[0] || (a[0] == b[0] && Below(a[1..], b[1..])))
  }

  /** `s.startswith(prefix)`, the `__startswith` lookup of the ORM. */
  predicate StartsWith(s: string, prefix: string)
  {
    |prefix| <= |s| && s[..|prefix|] == prefix
  }

  /** A proper prefix sorts before the longer string. */
  lemma {:induction false} BelowProperPrefix(a: string, b: string)
    requires |a| < |b| && b[..|a|] == a
    ensures Below(a, b)
  {
    if |a| > 0 {
      assert b[1..][..|a| - 1] == a[1..];
      BelowProperPrefix(a[1..], b[1..]);
    }
  }

  lemma {:induction false} BelowIrreflexive(a: string)
    ensures !Below(a, a)
  {
    if |a| > 0 {
      BelowIrreflexive(a[1..]);
    }
  }

  lemma {:induction false} BelowAsymmetric(a: string, b: string)
    ensures !(Below(a, b) && Below(b, a))
  {
    if |a| > 0 && |b| > 0 && a[0] == b[0] {
      BelowAsymmetric(a[1..], b[1..]);
    }
  }

  lemma {:induction false} BelowTransitive(a: string, b: string, c: string)
    requires Below(a, b) && Below(b, c)
    ensures Below(a, c)
  {
    if |a| > 0 && a[0] == b[0] && b[0] == c[0] {
      BelowTransitive(a[1..], b[1..], c[1..]);
    }
  }

  lemma {:induction false} BelowTotal(a: string, b: string)
    requires a != b
    ensures Below(a, b) || Below(b, a)
  {
    if |a| > 0 && |b| > 0 && a[0] == b[0] {
      assert a == [a[0]] + a[1..] && b == [b[0]] + b[1..];
      BelowTotal(a[1..], b[1..]);
    }
  }

  /** Below(x, y) is decided by the first position where x and y differ. */
  lemma {:induction false} BelowCommonPrefix(p: string, a: string, b: string)
    ensures Below(p + a, p + b) <==> Below(a, b)
  {
    if |p| > 0 {
      assert (p + a)[1..] == p[1..] + a;
      assert (p + b)[1..] == p[1..] + b;
      BelowCommonPrefix(p[1..], a, b);
    } else {
      assert p + a == a && p + b == b;
    }
  }

  /** What follows two strings of equal length cannot undo their order. */
  lemma {:induction false} BelowAppend(a: string, b: string, x: string, y: string)
    requires |a| == |b| && Below(a, b)
    ensures Below(a + x, b + y)
  {
    if a[0] == b[0] {
      assert (a + x)[1..] == a[1..] + x;
      assert (b + y)[1..] == b[1..] + y;
      BelowAppend(a[1..], b[1..], x, y);
    }
  }

  /** For strings of equal length the order can be read from the back too:
      first the strings without their last character, then that character. */
  lemma {:induction false} BelowSnoc(s: string, t: string)
    requires |s| == |t| > 0
    ensures Below(s, t) <==>
              Below(s[..|s| - 1], t[..|t| - 1]) ||
              (s[..|s| - 1] == t[..|t| - 1] && s[|s| - 1] < t[|t| - 1])
  {
    var n := |s|;
    if n == 1 {
      assert s[1..] == [] && t[1..] == [];
      assert !Below(s[1..], t[1..]);
      assert s[..0] == t[..0];
      assert !Below(s[..0], t[..0]);
    } else {
      var s', t' := s[1..], t[1..];
      BelowSnoc(s', t');
      assert s[..n - 1][1..] == s'[..n - 2];
      assert t[..n - 1][1..] == t'[..n - 2];
      assert s'[n - 2] == s[n - 1] && t'[n - 2] == t[n - 1];
      assert s[..n - 1] == [s[0]] + s'[..n - 2];
      assert t[..n - 1] == [t[0]] + t'[..n - 2];
      assert s[..n - 1] == t[..n - 1] <==> s[0] == t[0] && s'[..n - 2] == t'[..n - 2];
    }
  }

  /** Python slice `s[i:j]` for 0 <= i <= j: both bounds are clipped to the length. */
  function Slice(s: string, i: nat, j: nat): (r: string)
    requires i <= j
    ensures j <= |s| ==> r == s[i..j]
    ensures |s| <= i ==> r == []
  {
    var hi := if j <= |s| then j else |s|;
    var lo := if i <= hi then i else hi;
    s[lo..hi]
  }

  /** `m` is the least element of `s`. */
  predicate IsLeast(m: string, s: set<string>)
  {
    m in s && forall c :: c in s && c != m ==> Below(m, c)
  }

  lemma {:induction false} LeastExists(s: set<string>)
    requires s != {}
    ensures exists m :: IsLeast(m, s)
    decreases |s|
  {
    var x :| x in s;
    if s == {x} {
      assert IsLeast(x, s);
    } else {
      var rest := s - {x};
      LeastExists(rest);
      var m :| IsLeast(m, rest);
      if Below(x, m) {
        forall c | c in s && c != x
          ensures Below(x, c)
        {
          if c != m {
            BelowTransitive(x, m, c);
          }
        }
        assert IsLeast(x, s);
      } else {
        BelowTotal(x, m);
        assert IsLeast(m, s);
      }
    }
  }

  lemma LeastUnique(s: set<string>)
    ensures forall m, n :: IsLeast(m, s) && IsLeast(n, s) ==> m == n
  {
    forall m, n | IsLeast(m, s) && IsLeast(n, s)
      ensures m == n
    {
      BelowAsymmetric(m, n);
    }
  }

  /** The codes of `s` in ascending order, as `order_by('issue_no')` lists them:
      every code exactly once, each strictly below the next. */
  function SortedCodes(s: set<string>): (r: seq<string>)
    ensures |r| == |s|
    ensures forall i :: 0 <= i < |r| ==> r[i] in s
    ensures forall c :: c in s ==> c in r
    ensures forall i, j :: 0 <= i < j < |r| ==> Below(r[i], r[j])
    decreases |s|
  {
    if s == {} then []
    else
      LeastExists(s);
      LeastUnique(s);
      var m :| m in s && IsLeast(m, s);
      [m] + SortedCodes(s - {m})
  }

  /** The last code in ascending order, as `.order_by('issue_no').last()`
      returns it: a member of `s` above every other member. */
  function Greatest(s: set<string>): (m: string)
    requires s != {}
    ensures m in s
    ensures forall c :: c in s && c != m ==> Below(c, m)
  {
    var r := SortedCodes(s);
    r[|r| - 1]
  }

  /** A member above all others is the one `Greatest` returns. */
  lemma GreatestIs(s: set<string>, m: string)
    requires m in s
    requires forall c :: c in s && c != m ==> Below(c, m)
    ensures Greatest(s) == m
  {
    BelowAsymmetric(Greatest(s), m);
  }
}
