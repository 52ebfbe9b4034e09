/** The three java.lang.String operations the word wrapper relies on, with
    Java's own edge cases:
    - `s.split(d)` for a one-character literal delimiter `d` (limit 0),
    - `String.join(sep, parts)`,
    - `s.strip()`, which trims `Character.isWhitespace` characters at both ends.
 */
module JavaStrings {

  /** `String.join(sep, parts)`: the parts with `sep` between neighbours. */
  function Join(parts: seq<string>, sep: string): string
    decreases |parts|
  {
    if |parts| == 0 then ""
    else if |parts| == 1 then parts[0]
    else parts[0] + sep + Join(parts[1..], sep)
  }

  /** Every piece between occurrences of `c`, empty pieces included: a string
      with n occurrences of `c` has n + 1 pieces. */
  function SplitAll(s: string, c: char): (r: seq<string>)
    ensures |r| >= 1
    ensures forall p, x :: p in r && x in p ==> x in s && x != c
    decreases |s|
  {
    if s == [] then [[]]
    else
      var rest := SplitAll(s[1..], c);
      if s[0] == c then [[]] + rest
      else [[s[0]] + rest[0]] + rest[1..]
  }

  /** Removes the empty strings at the end of `ps`, as `split` does with limit 0. */
  function DropTrailingEmpty(ps: seq<string>): (r: seq<string>)
    ensures |r| <= |ps| && r == ps[..|r|]
    ensures r == [] || r[|r| - 1] != []
    ensures forall k :: |r| <= k < |ps| ==> ps[k] == []
    decreases |ps|
  {
    if ps == [] then []
    else if ps[|ps| - 1] == [] then DropTrailingEmpty(ps[..|ps| - 1])
    else ps
  }

  /** `s.split(c)` for a delimiter that is a single literal character: when `c`
      does not occur the result is `[s]` (so `"".split(c)` is `[""]`); otherwise
      the pieces with the trailing empty ones removed (so `" ".split(" ")` is empty). */
  function JavaSplit(s: string, c: char): (r: seq<string>)
    ensures c !in s ==> r == [s]
    ensures c in s ==> r == [] || r[|r| - 1] != []
    ensures forall p, x :: p in r && x in p ==> x in s && x != c
  {
    if c !in s then [s] else DropTrailingEmpty(SplitAll(s, c))
  }

  /** `Character.isWhitespace`: the ASCII controls tab to carriage return and
      0x1C-0x1F, the space, and the Unicode space, line and paragraph separators
      except the non-breaking ones (0xA0, 0x2007, 0x202F). */
  predicate IsWhitespace(ch: char) {
    var n := ch as int;
    (9 <= n <= 13) || (0x1C <= n <= 0x20) || n == 0x1680 ||
    (0x2000 <= n <= 0x2006) || (0x2008 <= n <= 0x200A) ||
    n == 0x2028 || n == 0x2029 || n == 0x205F || n == 0x3000
  }

  /** Length of the whitespace run at the start of `s`. */
  function LeadingWhitespace(s: string): (n: nat)
    ensures n <= |s|
    ensures forall i :: 0 <= i < n ==> IsWhitespace(s[i])
    ensures n < |s| ==> !IsWhitespace(s[n])
    decreases |s|
  {
    if s != [] && IsWhitespace(s[0]) then 1 + LeadingWhitespace(s[1..]) else 0
  }

  /** Length of the whitespace run at the end of `s`. */
  function TrailingWhitespace(s: string): (n: nat)
    ensures n <= |s|
    ensures forall i :: |s| - n <= i < |s| ==> IsWhitespace(s[i])
    ensures n < |s| ==> !IsWhitespace(s[|s| - n - 1])
    decreases |s|
  {
    if s != [] && IsWhitespace(s[|s| - 1]) then 1 + TrailingWhitespace(s[..|s| - 1]) else 0
  }

  /** `s.strip()`: `s` without its leading and trailing whitespace. */
  function Strip(s: string): (r: string)
    ensures r == [] || (!IsWhitespace(r[0]) && !IsWhitespace(r[|r| - 1]))
    ensures r == [] <==> forall i :: 0 <= i < |s| ==> IsWhitespace(s[i])
    ensures LeadingWhitespace(s) + |r| <= |s|
    ensures r == s[LeadingWhitespace(s)..LeadingWhitespace(s) + |r|]
    ensures forall i :: LeadingWhitespace(s) + |r| <= i < |s| ==> IsWhitespace(s[i])
  {
    var lo := LeadingWhitespace(s);
    if lo == |s| then ""
    else
      var hi := |s| - TrailingWhitespace(s);
      s[lo..hi]
  }

  /** Splitting on `c` and joining with `c` gives the string back. */
  lemma {:induction false} JoinSplitAll(s: string, c: char)
    ensures Join(SplitAll(s, c), [c]) == s
    decreases |s|
  {
    if s != [] {
      var rest := SplitAll(s[1..], c);
      JoinSplitAll(s[1..], c);
      if s[0] == c {
        assert ([[]] + rest)[1..] == rest;
      } else if |rest| > 1 {
        var r := [[s[0]] + rest[0]] + rest[1..];
        assert r[1..] == rest[1..];
        assert Join(rest, [c]) == rest[0] + [c] + Join(rest[1..], [c]);
        assert Join(r, [c]) == [s[0]] + Join(rest, [c]);
      }
    }
  }

  /** Appending an empty part adds one separator. */
  lemma {:induction false} JoinAppendEmpty(ps: seq<string>, sep: string)
    requires ps != []
    ensures Join(ps + [[]], sep) == Join(ps, sep) + sep
    decreases |ps|
  {
    if |ps| > 1 {
      assert (ps + [[]])[1..] == ps[1..] + [[]];
      JoinAppendEmpty(ps[1..], sep);
    }
  }

  /** Dropping `k` trailing empty parts shortens the joined string by `k` separators. */
  lemma {:induction false} JoinDropTrailing(ps: seq<string>, c: char)
    requires ps != []
    ensures var j := Join(DropTrailingEmpty(ps), [c]);
      var whole := Join(ps, [c]);
      |j| <= |whole| && whole[..|j|] == j &&
      forall i :: |j| <= i < |whole| ==> whole[i] == c
    decreases |ps|
  {
    if ps[|ps| - 1] == [] {
      var init := ps[..|ps| - 1];
      if init == [] {
        assert ps == [[]];
      } else {
        JoinDropTrailing(init, c);
        assert ps == init + [[]];
        JoinAppendEmpty(init, [c]);
      }
    }
  }

  /** What `split` loses: joining its pieces with the delimiter gives a prefix of
      `s`, and what is missing at the end consists of delimiters only. */
  lemma JoinJavaSplit(s: string, c: char)
    ensures var j := Join(JavaSplit(s, c), [c]);
      |j| <= |s| && s[..|j|] == j && forall i :: |j| <= i < |s| ==> s[i] == c
  {
    if c in s {
      JoinSplitAll(s, c);
      JoinDropTrailing(SplitAll(s, c), c);
    }
  }

  /** Changing a one-character separator that no part contains: the joined
      string keeps its length, and every former separator is now the new one. */
  lemma {:induction false} JoinSwapSeparator(ps: seq<string>, a: char, b: char)
    requires forall p :: p in ps ==> a !in p
    ensures |Join(ps, [b])| == |Join(ps, [a])|
    ensures forall i :: 0 <= i < |Join(ps, [a])| ==>
      Join(ps, [b])[i] == if Join(ps, [a])[i] == a then b else Join(ps, [a])[i]
    decreases |ps|
  {
    if |ps| > 1 {
      JoinSwapSeparator(ps[1..], a, b);
      var p, ja, jb := ps[0], Join(ps[1..], [a]), Join(ps[1..], [b]);
      assert Join(ps, [a]) == p + [a] + ja;
      assert Join(ps, [b]) == p + [b] + jb;
      forall i | 0 <= i < |Join(ps, [a])|
        ensures Join(ps, [b])[i] == if Join(ps, [a])[i] == a then b else Join(ps, [a])[i]
      {
        if i < |p| {
          assert Join(ps, [a])[i] == p[i] && Join(ps, [b])[i] == p[i];
          assert p[i] in p;
        } else if i > |p| {
          assert Join(ps, [a])[i] == ja[i - |p| - 1] && Join(ps, [b])[i] == jb[i - |p| - 1];
        }
      }
    } else if |ps| == 1 {
      assert ps[0] in ps;
      assert forall i :: 0 <= i < |ps[0]| ==> ps[0][i] in ps[0];
    }
  }

  /** A join whose last part is non-empty ends with that part's last character. */
  lemma {:induction false} JoinLast(ps: seq<string>, sep: string)
    requires ps != [] && ps[|ps| - 1] != []
    ensures |Join(ps, sep)| >= |ps[|ps| - 1]|
    ensures Join(ps, sep)[|Join(ps, sep)| - 1] == ps[|ps| - 1][|ps[|ps| - 1]| - 1]
    decreases |ps|
  {
    if |ps| > 1 {
      JoinLast(ps[1..], sep);
      assert Join(ps, sep) == ps[0] + sep + Join(ps[1..], sep);
    }
  }

  /** The joined pieces of `split` stop where the input's trailing delimiters
      start: the join is empty or its last position holds no delimiter in the
      input. */
  lemma JoinJavaSplitEnd(s: string, c: char)
    ensures var j := Join(JavaSplit(s, c), [c]);
      |j| <= |s| && (j == [] || s[|j| - 1] != c)
  {
    var ps := JavaSplit(s, c);
    JoinJavaSplit(s, c);
    if ps != [] && ps[|ps| - 1] != [] {
      var last := ps[|ps| - 1];
      JoinLast(ps, [c]);
      assert last in ps && last[|last| - 1] in last;
    } else if ps != [] {
      assert c !in s && ps == [s];
    }
  }
}
