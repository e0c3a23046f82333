/**
 * The syntax of a search request parameter: the range pattern
 * `\[(.+) TO (.+)\]` as `java.util.regex.Matcher.matches()` applies it,
 * `String.split("[;]+")`, and the query builder that receives the parsed
 * clauses.
 */
module Search {
  import opened Wrappers
  import Text

  // ----- the range pattern -----

  /** The characters Java's `.` does not match without DOTALL. */
  predicate IsLineTerminator(c: char)
  {
    c == '\n' || c == '\r' || c == '\U{0085}' || c == '\U{2028}' || c == '\U{2029}'
  }

  predicate NoLineTerminator(s: string)
  {
    forall i :: 0 <= i < |s| ==> !IsLineTerminator(s[i])
  }

  const RANGE_SEPARATOR: string := " TO "

  /** `s` is `[` + `lo` + ` TO ` + `hi` + `]` with both groups non-empty and
      matchable by `.+`. */
  predicate IsRangeSplit(s: string, lo: string, hi: string)
  {
    && s == "[" + lo + RANGE_SEPARATOR + hi + "]"
    && lo != [] && hi != []
    && NoLineTerminator(lo) && NoLineTerminator(hi)
  }

  /** Whether ` TO ` starts at index `k` of `inner`, with a non-empty group on
      each side. */
  predicate SeparatorAt(inner: string, k: int)
  {
    1 <= k && k + 4 < |inner| && inner[k..k + 4] == RANGE_SEPARATOR
  }

  /** The largest `k <= top` at which `SeparatorAt(inner, k)` holds. */
  function LastSeparator(inner: string, top: int): (r: int)
    ensures r == 0 || (1 <= r <= top && SeparatorAt(inner, r))
    ensures forall k :: r < k <= top ==> !SeparatorAt(inner, k)
    decreases top
  {
    if top < 1 then 0
    else if SeparatorAt(inner, top) then top
    else LastSeparator(inner, top - 1)
  }

  /** The two groups of the range pattern when it matches the whole of `s`;
      the first group is greedy, so it extends to the last usable ` TO `. */
  function RangeMatch(s: string): (r: Option<(string, string)>)
  {
    if |s| < 2 || s[0] != '[' || s[|s| - 1] != ']' then None
    else
      var inner := s[1..|s| - 1];
      var k := LastSeparator(inner, |inner| - 5);
      if k == 0 || !NoLineTerminator(inner) then None
      else Some((inner[..k], inner[k + 4..]))
  }

  lemma InnerOfRange(s: string, lo: string, hi: string)
    requires s == "[" + lo + RANGE_SEPARATOR + hi + "]"
    ensures s[1..|s| - 1] == lo + RANGE_SEPARATOR + hi
  {
  }

  /** Every match is a split of the parameter into the two groups. */
  lemma RangeMatchSound(s: string)
    requires RangeMatch(s).Some?
    ensures IsRangeSplit(s, RangeMatch(s).value.0, RangeMatch(s).value.1)
  {
    var inner := s[1..|s| - 1];
    var k := LastSeparator(inner, |inner| - 5);
    var lo, hi := inner[..k], inner[k + 4..];
    assert inner == lo + RANGE_SEPARATOR + hi;
    assert s == [s[0]] + inner + [s[|s| - 1]];
    forall i | 0 <= i < |lo| ensures !IsLineTerminator(lo[i]) {
      assert lo[i] == inner[i];
    }
    forall i | 0 <= i < |hi| ensures !IsLineTerminator(hi[i]) {
      assert hi[i] == inner[k + 4 + i];
    }
  }

  /** Every split is found, and the match's first group is at least as long
      as that split's: the greedy choice. */
  lemma RangeMatchComplete(s: string, lo: string, hi: string)
    requires IsRangeSplit(s, lo, hi)
    ensures RangeMatch(s).Some? && |RangeMatch(s).value.0| >= |lo|
  {
    InnerOfRange(s, lo, hi);
    var inner := s[1..|s| - 1];
    assert inner[|lo|..|lo| + 4] == RANGE_SEPARATOR;
    assert SeparatorAt(inner, |lo|);
    forall i | 0 <= i < |inner| ensures !IsLineTerminator(inner[i]) {
      if i < |lo| {
        assert inner[i] == lo[i];
      } else if i >= |lo| + 4 {
        assert inner[i] == hi[i - |lo| - 4];
      } else {
        assert inner[i] == RANGE_SEPARATOR[i - |lo|];
      }
    }
  }

  /** `[a TO b TO c]` splits after `a TO b`. */
  lemma RangeMatchGreedy()
    ensures RangeMatch("[a TO b TO c]") == Some(("a TO b", "c"))
  {
    var s := "[a TO b TO c]";
    var inner := "a TO b TO c";
    assert s[1..|s| - 1] == inner;
    assert inner[6..10] == RANGE_SEPARATOR;
    assert LastSeparator(inner, 6) == 6;
    assert NoLineTerminator(inner);
    assert inner[..6] == "a TO b" && inner[10..] == "c";
  }

  /** A line break inside a group defeats the match. */
  lemma RangeMatchRejectsLineBreak()
    ensures RangeMatch("[a\n TO b]") == None
  {
    var s := "[a\n TO b]";
    assert !NoLineTerminator(s[1..|s| - 1]) by {
      assert s[1..|s| - 1][1] == '\n';
    }
  }

  // ----- String.split("[;]+") -----

  function FirstIndexOf(s: string, c: char): (i: nat)
    requires c in s
    ensures i < |s| && s[i] == c && c !in s[..i]
  {
    if s[0] == c then 0 else 1 + FirstIndexOf(s[1..], c)
  }

  /** The first `c` of `x + [c] + y` is the one after `x` when `x` has none. */
  lemma {:induction false} FirstIndexOfAppend(x: string, c: char, y: string)
    requires c !in x
    ensures FirstIndexOf(x + [c] + y, c) == |x|
  {
    if x != [] {
      assert (x + [c] + y)[1..] == x[1..] + [c] + y;
      FirstIndexOfAppend(x[1..], c, y);
    }
  }

  /** The index after the run of `c` that starts at `i`. */
  function RunEnd(s: string, c: char, i: nat): (j: nat)
    requires i <= |s|
    ensures i <= j <= |s| && (j < |s| ==> s[j] != c)
    ensures forall k :: i <= k < j ==> s[k] == c
    decreases |s| - i
  {
    if i < |s| && s[i] == c then RunEnd(s, c, i + 1) else i
  }

  /** The pieces between the maximal runs of `;`, empty pieces at the ends
      included. */
  function SplitRuns(s: string): (r: seq<string>)
    ensures |r| >= 1
    decreases |s|
  {
    if ';' !in s then [s]
    else
      var i := FirstIndexOf(s, ';');
      var j := RunEnd(s, ';', i);
      [s[..i]] + SplitRuns(s[j..])
  }

  function DropTrailingEmpty(xs: seq<string>): (r: seq<string>)
    ensures |r| <= |xs| && r == xs[..|r|]
    ensures r != [] ==> r[|r| - 1] != []
    ensures forall k :: |r| <= k < |xs| ==> xs[k] == []
  {
    if xs == [] then []
    else if xs[|xs| - 1] == [] then DropTrailingEmpty(xs[..|xs| - 1])
    else xs
  }

  /** Java `s.split("[;]+")`: the pieces between runs of `;`, with trailing
      empty pieces removed; a parameter without `;` is its own only piece. */
  function SplitSemicolons(s: string): (r: seq<string>)
  {
    if ';' !in s then [s] else DropTrailingEmpty(SplitRuns(s))
  }

  /** The first piece is the text before the first `;`, the rest are the
      pieces of what follows its run. */
  lemma SplitRunsStep(s: string)
    requires ';' in s
    ensures var i := FirstIndexOf(s, ';');
      var j := RunEnd(s, ';', i);
      && s == s[..i] + s[i..j] + s[j..]
      && SplitRuns(s) == [s[..i]] + SplitRuns(s[j..])
      && (s[j..] != [] ==> s[j..][0] != ';')
      && forall k :: 0 <= k < |s[i..j]| ==> s[i..j][k] == ';'
  {
    var i := FirstIndexOf(s, ';');
    var j := RunEnd(s, ';', i);
    assert s[..i] + s[i..j] == s[..j];
    assert s[..j] + s[j..] == s;
  }

  /** No piece contains `;`. */
  lemma {:induction false} SplitRunsNoSemicolon(s: string)
    ensures forall k :: 0 <= k < |SplitRuns(s)| ==> ';' !in SplitRuns(s)[k]
    decreases |s|
  {
    if ';' in s {
      SplitRunsStep(s);
      var j := RunEnd(s, ';', FirstIndexOf(s, ';'));
      SplitRunsNoSemicolon(s[j..]);
    }
  }

  /** A parameter that does not start with `;` has a non-empty first piece. */
  lemma SplitRunsFirst(s: string)
    requires s != [] && s[0] != ';'
    ensures SplitRuns(s)[0] != []
  {
    if ';' in s {
      SplitRunsStep(s);
    }
  }

  /** Every piece strictly between the first and the last is non-empty. */
  lemma {:induction false} SplitRunsInnerNonEmpty(s: string)
    ensures forall k :: 1 <= k < |SplitRuns(s)| - 1 ==> SplitRuns(s)[k] != []
    decreases |s|
  {
    if ';' in s {
      SplitRunsStep(s);
      var j := RunEnd(s, ';', FirstIndexOf(s, ';'));
      var rest := s[j..];
      SplitRunsInnerNonEmpty(rest);
      if |SplitRuns(rest)| > 1 {
        SplitRunsFirst(rest);
      }
    }
  }

  /** The pieces concatenated give the parameter with every `;` removed. */
  lemma {:induction false} SplitRunsConcat(s: string)
    ensures Concat(SplitRuns(s)) == Text.Strip(s, {';'})
    decreases |s|
  {
    if ';' in s {
      SplitRunsStep(s);
      var i := FirstIndexOf(s, ';');
      var j := RunEnd(s, ';', i);
      var before, run, rest := s[..i], s[i..j], s[j..];
      SplitRunsConcat(rest);
      ConcatCons(before, SplitRuns(rest));
      assert Concat(SplitRuns(s)) == before + Text.Strip(rest, {';'});
      Text.StripAppend(before + run, rest, {';'});
      Text.StripAppend(before, run, {';'});
      StripAllSemicolons(run);
      StripNoSemicolon(before);
      assert Text.Strip(s, {';'}) == before + [] + Text.Strip(rest, {';'});
    } else {
      StripNoSemicolon(s);
      assert Concat([s]) == s + Concat([]);
    }
  }

  /** A run of one or more `;`, as the pattern `[;]+` matches it. */
  predicate IsRun(t: string)
  {
    t != [] && forall m :: 0 <= m < |t| ==> t[m] == ';'
  }

  /** The runs of `;` that separate the pieces of `SplitRuns(s)`. */
  function Separators(s: string): seq<string>
    decreases |s|
  {
    if ';' !in s then []
    else
      var i := FirstIndexOf(s, ';');
      var j := RunEnd(s, ';', i);
      [s[i..j]] + Separators(s[j..])
  }

  /** The pieces with the separators put back between them. */
  function Joined(pieces: seq<string>, seps: seq<string>): string
    requires |pieces| == |seps| + 1
    decreases |seps|
  {
    if seps == [] then pieces[0] else pieces[0] + seps[0] + Joined(pieces[1..], seps[1..])
  }

  /** `SplitRuns` cuts the parameter exactly at its runs of `;`: between any
      two neighbouring pieces lies one whole run, and putting the runs back
      gives the parameter. */
  lemma {:induction false} SplitRunsJoin(s: string)
    ensures |SplitRuns(s)| == |Separators(s)| + 1
    ensures forall k :: 0 <= k < |Separators(s)| ==> IsRun(Separators(s)[k])
    ensures Joined(SplitRuns(s), Separators(s)) == s
    decreases |s|
  {
    if ';' in s {
      var i := FirstIndexOf(s, ';');
      var j := RunEnd(s, ';', i);
      assert j > i;
      SplitRunsStep(s);
      SplitRunsJoin(s[j..]);
      var pieces, seps := SplitRuns(s), Separators(s);
      assert pieces[1..] == SplitRuns(s[j..]);
      assert seps[1..] == Separators(s[j..]);
      assert IsRun(s[i..j]);
      assert forall k :: 1 <= k < |seps| ==> seps[k] == Separators(s[j..])[k - 1];
    }
  }

  /** Where `split("[;]+")` cuts: its pieces are the leading pieces of
      `SplitRuns`, the pieces it drops are empty, and the runs of `;`
      between all of them rebuild the parameter. */
  lemma SplitSemicolonsCuts(s: string)
    requires ';' in s
    ensures var runs, pieces := SplitRuns(s), SplitSemicolons(s);
      && |runs| == |Separators(s)| + 1
      && Joined(runs, Separators(s)) == s
      && (forall k :: 0 <= k < |Separators(s)| ==> IsRun(Separators(s)[k]))
      && pieces == runs[..|pieces|]
      && (forall k :: |pieces| <= k < |runs| ==> runs[k] == [])
  {
    SplitRunsJoin(s);
  }

  function Concat(xs: seq<string>): string
  {
    if xs == [] then [] else xs[0] + Concat(xs[1..])
  }

  lemma ConcatCons(x: string, xs: seq<string>)
    ensures Concat([x] + xs) == x + Concat(xs)
  {
    assert ([x] + xs)[1..] == xs;
  }

  lemma {:induction false} ConcatDropEmpty(xs: seq<string>, n: nat)
    requires n <= |xs| && forall k :: n <= k < |xs| ==> xs[k] == []
    ensures Concat(xs[..n]) == Concat(xs)
    decreases |xs|
  {
    if xs != [] {
      if n == 0 {
        assert xs[0] == [];
        ConcatDropEmpty(xs[1..], 0);
        assert xs[1..][..0] == xs[..0];
      } else {
        ConcatDropEmpty(xs[1..], n - 1);
        assert xs[..n][1..] == xs[1..][..n - 1];
      }
    }
  }

  lemma {:induction false} StripNoSemicolon(s: string)
    requires ';' !in s
    ensures Text.Strip(s, {';'}) == s
  {
    if s != [] {
      StripNoSemicolon(s[1..]);
      assert s == [s[0]] + s[1..];
    }
  }

  lemma {:induction false} StripAllSemicolons(s: string)
    requires forall k :: 0 <= k < |s| ==> s[k] == ';'
    ensures Text.Strip(s, {';'}) == []
  {
    if s != [] {
      StripAllSemicolons(s[1..]);
    }
  }

  /** What `split("[;]+")` promises: no piece contains `;`, only the first
      piece may be empty, and nothing but the `;` is lost. */
  lemma SplitSemicolonsProperties(s: string)
    ensures var pieces := SplitSemicolons(s);
      && (forall k :: 0 <= k < |pieces| ==> ';' !in pieces[k])
      && (forall k :: 1 <= k < |pieces| ==> pieces[k] != [])
      && Concat(pieces) == Text.Strip(s, {';'})
  {
    if ';' in s {
      var runs := SplitRuns(s);
      var pieces := DropTrailingEmpty(runs);
      PiecesOfRuns(s, runs, pieces);
      SplitRunsConcat(s);
      ConcatDropEmpty(runs, |pieces|);
    } else {
      StripNoSemicolon(s);
      assert Concat([s]) == s + Concat([]);
    }
  }

  /** The kept pieces are a prefix of the runs, so they keep the runs'
      properties; the last kept one is non-empty. */
  lemma PiecesOfRuns(s: string, runs: seq<string>, pieces: seq<string>)
    requires runs == SplitRuns(s) && pieces == DropTrailingEmpty(runs)
    ensures forall k :: 0 <= k < |pieces| ==> ';' !in pieces[k]
    ensures forall k :: 1 <= k < |pieces| ==> pieces[k] != []
  {
    SplitRunsNoSemicolon(s);
    SplitRunsInnerNonEmpty(s);
    assert forall k :: 0 <= k < |pieces| ==> pieces[k] == runs[k];
  }

  /** `"a;;b;"` splits into `"a"`, `"b"` and a trailing empty piece. */
  lemma SplitRunsOfTail()
    ensures SplitRuns("a;;b;") == ["a", "b", ""]
  {
    var t := "b;";
    assert FirstIndexOf(t, ';') == 1 by { FirstIndexOfAppend("b", ';', ""); }
    assert RunEnd(t, ';', 1) == 2;
    assert t[..1] == "b" && t[2..] == "";
    assert SplitRuns(t) == ["b", ""];
    var s := "a;;b;";
    assert FirstIndexOf(s, ';') == 1 by { FirstIndexOfAppend("a", ';', ";b;"); }
    assert RunEnd(s, ';', 1) == 3;
    assert s[..1] == "a" && s[3..] == t;
  }

  /** A leading `;` gives an empty first piece; trailing ones give nothing. */
  lemma SplitSemicolonsLeading()
    ensures SplitSemicolons(";a;;b;") == ["", "a", "b"]
  {
    SplitRunsOfTail();
    var s := ";a;;b;";
    assert FirstIndexOf(s, ';') == 0;
    assert RunEnd(s, ';', 0) == 1;
    assert s[..0] == "" && s[1..] == "a;;b;";
    assert SplitRuns(s) == ["", "a", "b", ""];
  }

  /** `"a;b;c"` splits into its three letters. */
  lemma SplitSemicolonsThree()
    ensures SplitSemicolons("a;b;c") == ["a", "b", "c"]
  {
    var t := "b;c";
    assert FirstIndexOf(t, ';') == 1 by { FirstIndexOfAppend("b", ';', "c"); }
    assert RunEnd(t, ';', 1) == 2;
    assert t[..1] == "b" && t[2..] == "c";
    assert SplitRuns(t) == ["b", "c"];
    var s := "a;b;c";
    assert FirstIndexOf(s, ';') == 1 by { FirstIndexOfAppend("a", ';', "b;c"); }
    assert RunEnd(s, ';', 1) == 2;
    assert s[..1] == "a" && s[2..] == t;
    assert SplitRuns(s) == ["a", "b", "c"];
  }

  /** A parameter of `;` only splits into no pieces at all. */
  lemma SplitSemicolonsOnly()
    ensures SplitSemicolons(";;") == []
  {
    assert SplitRuns("") == [""];
    SplitRunsStep(";;");
    assert FirstIndexOf(";;", ';') == 0 && RunEnd(";;", ';', 0) == 2;
    assert ";;"[..0] == "" && ";;"[2..] == "";
    assert SplitRuns(";;") == ["", ""];
  }
}
