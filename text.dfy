/**
 * The string operations the catalogue relies on: `toLowerCase`, `includes`,
 * a global one-character `replace`, and the order of the default array sort.
 */
module Text {

  predicate IsUpper(c: char)
  {
    'A' <= c <= 'Z'
  }

  /** `toLowerCase` on one character (ASCII letters only). */
  function LowerChar(c: char): (d: char)
    ensures !IsUpper(d)
    ensures IsUpper(c) ==> d as int == c as int + 32
    ensures !IsUpper(c) ==> d == c
  {
    if IsUpper(c) then (c as int + 32) as char else c
  }

  /** `toLowerCase` on a string. */
  function Lower(s: string): (r: string)
    ensures |r| == |s|
    ensures forall i :: 0 <= i < |s| ==> r[i] == LowerChar(s[i])
  {
    seq(|s|, i requires 0 <= i < |s| => LowerChar(s[i]))
  }

  predicate HasNoUpper(s: string)
  {
    forall i :: 0 <= i < |s| ==> !IsUpper(s[i])
  }

  /** Lowering twice is lowering once, so a query lowered on input stays as it is. */
  lemma LowerIdempotent(s: string)
    ensures Lower(Lower(s)) == Lower(s)
    ensures HasNoUpper(Lower(s))
  {
  }

  /** `a` and `b` differ at most in the case of ASCII letters. */
  predicate SameUpToCase(a: string, b: string)
  {
    && |a| == |b|
    && forall i :: 0 <= i < |a| ==>
         || a[i] == b[i]
         || (IsUpper(a[i]) && b[i] as int == a[i] as int + 32)
         || (IsUpper(b[i]) && a[i] as int == b[i] as int + 32)
  }

  /** Lowering forgets case: strings that differ only in case lower to the same string. */
  lemma LowerIgnoresCase(a: string, b: string)
    requires SameUpToCase(a, b)
    ensures Lower(a) == Lower(b)
  {
    forall i | 0 <= i < |a| ensures Lower(a)[i] == Lower(b)[i] {
      assert Lower(a)[i] == LowerChar(a[i]) && Lower(b)[i] == LowerChar(b[i]);
    }
  }

  predicate StartsWith(s: string, prefix: string)
  {
    |prefix| <= |s| && s[..|prefix|] == prefix
  }

  /** `s.includes(sub)`, as a scan over the starting positions of `s`. */
  predicate Contains(s: string, sub: string)
    decreases |s|
  {
    StartsWith(s, sub) || (|s| > 0 && Contains(s[1..], sub))
  }

  /** `sub` occurs in `s` at position `i`. */
  predicate OccursAt(s: string, sub: string, i: int)
  {
    0 <= i && i + |sub| <= |s| && s[i..i + |sub|] == sub
  }

  /** A window of the tail of `s` is the window one place further on in `s`. */
  lemma TailWindow(s: string, i: int, n: int)
    requires 1 <= i && 0 <= n && i + n <= |s|
    ensures s[1..][i - 1..i - 1 + n] == s[i..i + n]
  {
    var a, b := s[1..][i - 1..i - 1 + n], s[i..i + n];
    assert |a| == n == |b|;
    forall t | 0 <= t < n ensures a[t] == b[t] {
      assert a[t] == s[1..][i - 1 + t] == s[i + t];
    }
  }

  /** The scan finds `sub` exactly when `sub` occurs at some position of `s`. */
  lemma {:induction false} ContainsIffOccurs(s: string, sub: string)
    ensures Contains(s, sub) <==> exists i :: OccursAt(s, sub, i)
    decreases |s|
  {
    if Contains(s, sub) {
      if StartsWith(s, sub) {
        assert OccursAt(s, sub, 0);
      } else {
        ContainsIffOccurs(s[1..], sub);
        var i :| OccursAt(s[1..], sub, i);
        TailWindow(s, i + 1, |sub|);
        assert OccursAt(s, sub, i + 1);
      }
    }
    if exists i :: OccursAt(s, sub, i) {
      var i :| OccursAt(s, sub, i);
      if i == 0 {
        assert s[..|sub|] == s[i..i + |sub|];
      } else {
        ContainsIffOccurs(s[1..], sub);
        TailWindow(s, i, |sub|);
        assert OccursAt(s[1..], sub, i - 1);
      }
    }
  }

  /** `s.replace(/c/g, rep)`: every occurrence of the character `c` becomes `rep`. */
  function ReplaceChar(s: string, c: char, rep: string): string
  {
    if s == [] then [] else (if s[0] == c then rep else [s[0]]) + ReplaceChar(s[1..], c, rep)
  }

  /** After the replacement no `c` is left, as long as `rep` brings none in. */
  lemma {:induction false} ReplaceCharRemoves(s: string, c: char, rep: string)
    requires c !in rep
    ensures c !in ReplaceChar(s, c, rep)
  {
    if s != [] {
      ReplaceCharRemoves(s[1..], c, rep);
    }
  }

  lemma ReplaceCharSingle(d: char, c: char, rep: string)
    ensures ReplaceChar([d], c, rep) == if d == c then rep else [d]
  {
    assert [d][1..] == [];
  }

  /** Without an occurrence of `c` nothing changes. */
  lemma {:induction false} ReplaceCharAbsent(s: string, c: char, rep: string)
    requires c !in s
    ensures ReplaceChar(s, c, rep) == s
  {
    if s != [] {
      assert s == [s[0]] + s[1..];
      ReplaceCharAbsent(s[1..], c, rep);
    }
  }

  /** A character that is neither in `s` nor in `rep` is not in the result. */
  lemma {:induction false} ReplaceCharKeepsOut(s: string, c: char, rep: string, d: char)
    requires d !in s && d !in rep
    ensures d !in ReplaceChar(s, c, rep)
  {
    if s != [] {
      ReplaceCharKeepsOut(s[1..], c, rep, d);
    }
  }

  /** An upper-case letter in the result comes from `s` or from `rep`. */
  lemma {:induction false} ReplaceCharNoUpper(s: string, c: char, rep: string)
    requires HasNoUpper(s) && HasNoUpper(rep)
    ensures HasNoUpper(ReplaceChar(s, c, rep))
  {
    if s != [] {
      ReplaceCharNoUpper(s[1..], c, rep);
      var head := if s[0] == c then rep else [s[0]];
      var r := head + ReplaceChar(s[1..], c, rep);
      forall i | 0 <= i < |r| ensures !IsUpper(r[i]) {
        if i >= |head| {
          assert r[i] == ReplaceChar(s[1..], c, rep)[i - |head|];
        }
      }
    }
  }

  /** Replacement distributes over concatenation. */
  lemma {:induction false} ReplaceCharAppend(a: string, b: string, c: char, rep: string)
    ensures ReplaceChar(a + b, c, rep) == ReplaceChar(a, c, rep) + ReplaceChar(b, c, rep)
  {
    if a != [] {
      assert (a + b)[0] == a[0] && (a + b)[1..] == a[1..] + b;
      ReplaceCharAppend(a[1..], b, c, rep);
      var head := if a[0] == c then rep else [a[0]];
      calc {
        ReplaceChar(a + b, c, rep);
        head + ReplaceChar(a[1..] + b, c, rep);
        head + (ReplaceChar(a[1..], c, rep) + ReplaceChar(b, c, rep));
        (head + ReplaceChar(a[1..], c, rep)) + ReplaceChar(b, c, rep);
      }
    } else {
      assert a + b == b;
    }
  }

  /**
   * The order the default `Array.prototype.sort` uses on strings:
   * lexicographic on characters, a proper prefix first.
   */
  predicate LexLess(a: string, b: string)
  {
    if a == [] then b != []
    else if b == [] then false
    else if a[0] != b[0] then a[0] < b[0]
    else LexLess(a[1..], b[1..])
  }

  lemma {:induction false} LexLessIrreflexive(a: string)
    ensures !LexLess(a, a)
  {
    if a != [] {
      LexLessIrreflexive(a[1..]);
    }
  }

  lemma {:induction false} LexLessTransitive(a: string, b: string, c: string)
    requires LexLess(a, b) && LexLess(b, c)
    ensures LexLess(a, c)
  {
    if a != [] && b != [] && c != [] && a[0] == b[0] && b[0] == c[0] {
      LexLessTransitive(a[1..], b[1..], c[1..]);
    }
  }

  lemma {:induction false} LexLessTotal(a: string, b: string)
    requires a != b
    ensures LexLess(a, b) || LexLess(b, a)
  {
    if a != [] && b != [] && a[0] == b[0] {
      assert a == [a[0]] + a[1..] && b == [b[0]] + b[1..];
      LexLessTotal(a[1..], b[1..]);
    }
  }
}
