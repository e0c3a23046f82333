/**
 * String operations of the Java and JavaScript runtimes that the modelled
 * code calls: global replacement, character filtering, Java's 32-bit
 * `String.hashCode` and `String.compareTo`.
 *
 * Characters are taken to be single UTF-16 code units (the Basic
 * Multilingual Plane), so a Dafny `char` stands for a Java `char`.
 */
module Text {

  // ----- global replacement -----

  /** Every occurrence of the character `c` in `s` replaced by `r`
      (Java `StringUtils.replace` with a one-character search string,
      JavaScript `s.replace(/c/g, r)`). */
  function ReplaceChar(s: string, c: char, r: string): string
  {
    if s == [] then []
    else (if s[0] == c then r else [s[0]]) + ReplaceChar(s[1..], c, r)
  }

  /** Left-to-right, non-overlapping replacement of every occurrence of
      the non-empty pattern `p` by `r` (Java `StringUtils.replace`,
      JavaScript `s.replace(/p/g, r)` for a literal pattern). */
  function ReplaceAll(s: string, p: string, r: string): string
    requires p != []
    decreases |s|
  {
    if |s| < |p| then s
    else if s[..|p|] == p then r + ReplaceAll(s[|p|..], p, r)
    else [s[0]] + ReplaceAll(s[1..], p, r)
  }

  /** `s` with every character of `cs` dropped, all others kept in order. */
  function Strip(s: string, cs: set<char>): string
  {
    if s == [] then []
    else (if s[0] in cs then [] else [s[0]]) + Strip(s[1..], cs)
  }

  lemma {:induction false} ReplaceCharAppend(a: string, b: string, c: char, r: string)
    ensures ReplaceChar(a + b, c, r) == ReplaceChar(a, c, r) + ReplaceChar(b, c, r)
  {
    if a == [] {
      assert a + b == b;
    } else {
      assert (a + b)[1..] == a[1..] + b;
      ReplaceCharAppend(a[1..], b, c, r);
    }
  }

  /** After replacing `c` by a text that does not contain it, `c` is gone. */
  lemma {:induction false} ReplaceCharRemoves(s: string, c: char, r: string)
    requires c !in r
    ensures c !in ReplaceChar(s, c, r)
  {
    if s != [] {
      ReplaceCharRemoves(s[1..], c, r);
    }
  }

  /** Any character other than `c` that the replacement text does not
      contain survives exactly when it was in `s`. */
  lemma {:induction false} ReplaceCharKeeps(s: string, c: char, r: string, d: char)
    requires d != c && d !in r
    ensures d in ReplaceChar(s, c, r) <==> d in s
  {
    if s != [] {
      ReplaceCharKeeps(s[1..], c, r, d);
      assert s == [s[0]] + s[1..];
    }
  }

  /** Replacing a character that does not occur changes nothing. */
  lemma {:induction false} ReplaceCharAbsent(s: string, c: char, r: string)
    requires c !in s
    ensures ReplaceChar(s, c, r) == s
  {
    if s != [] {
      ReplaceCharAbsent(s[1..], c, r);
      assert s == [s[0]] + s[1..];
    }
  }

  /** A character that occurs neither in the pattern nor in the replacement
      text occurs in the result exactly when it occurs in `s`. */
  lemma {:induction false} ReplaceAllKeeps(s: string, p: string, r: string, d: char)
    requires p != [] && d !in p && d !in r
    ensures d in ReplaceAll(s, p, r) <==> d in s
    decreases |s|
  {
    if |s| < |p| {
    } else if s[..|p|] == p {
      ReplaceAllKeeps(s[|p|..], p, r, d);
      assert s == s[..|p|] + s[|p|..];
      assert d !in s[..|p|];
    } else {
      ReplaceAllKeeps(s[1..], p, r, d);
      assert s == [s[0]] + s[1..];
    }
  }

  /** When `s` has no occurrence of `p[0]` then `ReplaceAll` changes nothing. */
  lemma {:induction false} ReplaceAllAbsent(s: string, p: string, r: string)
    requires p != [] && p[0] !in s
    ensures ReplaceAll(s, p, r) == s
    decreases |s|
  {
    if |s| >= |p| {
      assert s[..|p|] != p by { assert s[0] != p[0]; }
      ReplaceAllAbsent(s[1..], p, r);
      assert s == [s[0]] + s[1..];
    }
  }

  /** `Strip` keeps exactly the characters outside `cs`. */
  lemma {:induction false} StripMembers(s: string, cs: set<char>, d: char)
    ensures d in Strip(s, cs) <==> d in s && d !in cs
  {
    if s != [] {
      StripMembers(s[1..], cs, d);
      assert s == [s[0]] + s[1..];
    }
  }

  lemma {:induction false} StripAppend(a: string, b: string, cs: set<char>)
    ensures Strip(a + b, cs) == Strip(a, cs) + Strip(b, cs)
  {
    if a == [] {
      assert a + b == b;
    } else {
      assert (a + b)[1..] == a[1..] + b;
      StripAppend(a[1..], b, cs);
    }
  }

  /** Stripping in two passes is stripping the union in one. */
  lemma {:induction false} StripTwice(s: string, a: set<char>, b: set<char>)
    ensures Strip(Strip(s, a), b) == Strip(s, a + b)
  {
    if s != [] {
      StripTwice(s[1..], a, b);
      var head := if s[0] in a then [] else [s[0]];
      StripAppend(head, Strip(s[1..], a), b);
    }
  }

  /** Deleting every `c` (a regular-expression replacement of `[c]+` by the
      empty string) is stripping `{c}`. */
  lemma {:induction false} ReplaceByEmptyIsStrip(s: string, c: char)
    ensures ReplaceChar(s, c, "") == Strip(s, {c})
  {
    if s != [] {
      ReplaceByEmptyIsStrip(s[1..], c);
    }
  }

  // ----- Java 32-bit integers -----

  const TWO_POW_31: int := 0x8000_0000
  const TWO_POW_32: int := 0x1_0000_0000

  predicate IsInt32(x: int)
  {
    -TWO_POW_31 <= x < TWO_POW_31
  }

  /** Two's-complement wrap-around of a mathematical integer to a Java `int`. */
  function Wrap32(x: int): (r: int)
    ensures IsInt32(r)
    ensures (r - x) % TWO_POW_32 == 0
    ensures IsInt32(x) ==> r == x
  {
    (x + TWO_POW_31) % TWO_POW_32 - TWO_POW_31
  }

  /** Java `String.hashCode`: `h = 31*h + c` over the characters, wrapping. */
  function JavaHash(s: string): (h: int)
    ensures IsInt32(h)
    decreases |s|
  {
    if s == [] then 0
    else Wrap32(31 * JavaHash(s[..|s| - 1]) + s[|s| - 1] as int)
  }

  // ----- Java String.compareTo -----

  /** Java `String.compareTo`: the difference of the first differing
      characters, or the difference of the lengths when one string is a
      prefix of the other. */
  function JavaCompare(a: string, b: string): int
    decreases |a|
  {
    if a == [] || b == [] then |a| - |b|
    else if a[0] != b[0] then a[0] as int - b[0] as int
    else JavaCompare(a[1..], b[1..])
  }

  /** `compareTo` is zero exactly for equal strings. */
  lemma {:induction false} JavaCompareZero(a: string, b: string)
    ensures JavaCompare(a, b) == 0 <==> a == b
    decreases |a|
  {
    if a != [] && b != [] && a[0] == b[0] {
      JavaCompareZero(a[1..], b[1..]);
      assert a == [a[0]] + a[1..];
      assert b == [b[0]] + b[1..];
    }
  }

  /** Swapping the arguments negates the result. */
  lemma {:induction false} JavaCompareAntisymmetric(a: string, b: string)
    ensures JavaCompare(a, b) == -JavaCompare(b, a)
    decreases |a|
  {
    if a != [] && b != [] && a[0] == b[0] {
      JavaCompareAntisymmetric(a[1..], b[1..]);
    }
  }

  /** The order `compareTo` induces is transitive. */
  lemma {:induction false} JavaCompareTransitive(a: string, b: string, c: string)
    requires JavaCompare(a, b) < 0 && JavaCompare(b, c) < 0
    ensures JavaCompare(a, c) < 0
    decreases |a|
  {
    if a != [] && b != [] && c != [] && a[0] == b[0] && b[0] == c[0] {
      JavaCompareTransitive(a[1..], b[1..], c[1..]);
    }
  }
}
