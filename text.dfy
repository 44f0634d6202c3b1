/**
 * The string operations the search engine is built from, as Python defines
 * them: lower-casing, substring containment, splitting and joining on line
 * breaks, strip(), the extension that os.path.splitext reports, and decimal
 * formatting of numbers.
 */
module TextOps {

  // ---------------------------------------------------------------------------
  // Case folding and containment
  // ---------------------------------------------------------------------------

  /** str.lower on one character, restricted to the ASCII letters. */
  function LowerChar(c: char): char
  {
    if 'A' <= c <= 'Z' then (c as int + 32) as char else c
  }

  /** str.lower, character by character. */
  function Lower(s: string): string
  {
    seq(|s|, i requires 0 <= i < |s| => LowerChar(s[i]))
  }

  /** A lower-cased text holds no upper-case ASCII letter. */
  lemma LowerHasNoUpper(s: string)
    ensures forall i :: 0 <= i < |Lower(s)| ==> !('A' <= Lower(s)[i] <= 'Z')
  {
  }

  /** Lower-casing twice is lower-casing once. */
  lemma LowerIdempotent(s: string)
    ensures Lower(Lower(s)) == Lower(s)
  {
    var t := Lower(s);
    forall i | 0 <= i < |t| ensures Lower(t)[i] == t[i] {
      assert !('A' <= t[i] <= 'Z');
    }
  }

  /** Lower-casing maps occurrences to occurrences. */
  lemma LowerOccurs(s: string, q: string, at: int)
    requires OccursAt(s, q, at)
    ensures OccursAt(Lower(s), Lower(q), at)
  {
    var a, b := Lower(s)[at..at + |q|], Lower(q);
    forall k | 0 <= k < |q| ensures a[k] == b[k] {
      assert s[at + k] == s[at..at + |q|][k] == q[k];
    }
  }

  /**
   * Whatever matches case-sensitively also matches case-insensitively:
   * unchecking "case sensitive" never loses a result line.
   */
  lemma SensitiveMatchIsInsensitive(query: string, s: string)
    ensures Matches(query, s, true) ==> Matches(query, s, false)
  {
    if Matches(query, s, true) {
      var at := MatchWitness(query, s, true);
      LowerOccurs(s, query, at);
      assert OccursAt(Fold(s, false), Fold(query, false), at);
    }
  }

  /** The text a comparison sees: unchanged when case-sensitive, lower-cased otherwise. */
  function Fold(s: string, caseSensitive: bool): (r: string)
    ensures |r| == |s|
  {
    if caseSensitive then s else Lower(s)
  }

  lemma FoldSlice(s: string, lo: nat, hi: nat, caseSensitive: bool)
    requires lo <= hi <= |s|
    ensures Fold(s[lo..hi], caseSensitive) == Fold(s, caseSensitive)[lo..hi]
  {
  }

  /** Folding a text folds each of its pieces the same way. */
  lemma FoldPiece(s: string, piece: string, lo: nat, caseSensitive: bool)
    requires lo + |piece| <= |s| && s[lo..lo + |piece|] == piece
    ensures Fold(s, caseSensitive)[lo..lo + |piece|] == Fold(piece, caseSensitive)
  {
    FoldSlice(s, lo, lo + |piece|, caseSensitive);
  }

  /** q occurs in s starting at index i. */
  predicate OccursAt(s: string, q: string, i: int)
  {
    0 <= i && i + |q| <= |s| && s[i..i + |q|] == q
  }

  /** Python's `q in s` on strings: q occurs somewhere in s (the empty string occurs everywhere). */
  predicate Contains(s: string, q: string)
  {
    exists i | 0 <= i <= |s| - |q| :: OccursAt(s, q, i)
  }

  /** The containment test of the search: the query occurs in s, both sides folded by the case rule. */
  predicate Matches(query: string, s: string, caseSensitive: bool)
  {
    Contains(Fold(s, caseSensitive), Fold(query, caseSensitive))
  }

  /** An occurrence that lies inside s[lo..hi] is an occurrence in that slice. */
  lemma OccursInSlice(s: string, q: string, lo: nat, hi: nat, at: nat)
    requires lo <= at && at + |q| <= hi <= |s| && OccursAt(s, q, at)
    ensures OccursAt(s[lo..hi], q, at - lo)
  {
    var t := s[lo..hi];
    var inner, outer := t[at - lo..at - lo + |q|], s[at..at + |q|];
    forall k | 0 <= k < |q| ensures inner[k] == outer[k] {
      assert t[at - lo + k] == s[lo + (at - lo + k)];
    }
  }

  /** An occurrence in a piece of s, found at lo, is an occurrence in s. */
  lemma OccursFromPiece(s: string, piece: string, q: string, lo: nat, at: nat)
    requires lo + |piece| <= |s| && s[lo..lo + |piece|] == piece && OccursAt(piece, q, at)
    ensures OccursAt(s, q, lo + at)
  {
    var inner, outer := piece[at..at + |q|], s[lo + at..lo + at + |q|];
    forall k | 0 <= k < |q| ensures inner[k] == outer[k] {
      assert piece[at + k] == s[lo..lo + |piece|][at + k] == s[lo + at + k];
    }
  }

  // ---------------------------------------------------------------------------
  // Lines: str.split('\n') and '\n'.join
  // ---------------------------------------------------------------------------

  /** The first index of c in s. */
  function IndexOf(s: string, c: char): (k: nat)
    requires c in s
    ensures k < |s| && s[k] == c
    ensures forall i :: 0 <= i < k ==> s[i] != c
  {
    if s[0] == c then 0 else IndexOf(s[1..], c) + 1
  }

  /** text.split('\n'): the pieces between line breaks, one more than there are breaks. */
  function Split(s: string): (lines: seq<string>)
    ensures |lines| >= 1
    ensures forall i :: 0 <= i < |lines| ==> '\n' !in lines[i]
    decreases |s|
  {
    if '\n' !in s then [s]
    else
      var k := IndexOf(s, '\n');
      [s[..k]] + Split(s[k + 1..])
  }

  /** '\n'.join(lines). */
  function Join(lines: seq<string>): string
  {
    if lines == [] then ""
    else if |lines| == 1 then lines[0]
    else lines[0] + "\n" + Join(lines[1..])
  }

  /** A text is the part before index k, the character at k, and the part after it. */
  lemma CutAt(s: string, k: nat)
    requires k < |s|
    ensures s == s[..k] + [s[k]] + s[k + 1..]
  {
  }

  /** Joining the pieces of a split gives back the text. */
  lemma {:induction false} JoinSplit(s: string)
    ensures Join(Split(s)) == s
    decreases |s|
  {
    if '\n' in s {
      var k := IndexOf(s, '\n');
      var head, tail := s[..k], s[k + 1..];
      var rest := Split(tail);
      JoinSplit(tail);
      var lines := [head] + rest;
      assert Split(s) == lines;
      assert lines[0] == head && lines[1..] == rest;
      assert Join(lines) == head + "\n" + Join(rest);
      CutAt(s, k);
    }
  }

  /** Splitting a join of break-free lines gives back the lines. */
  lemma {:induction false} SplitJoin(lines: seq<string>)
    requires |lines| >= 1
    requires forall i :: 0 <= i < |lines| ==> '\n' !in lines[i]
    ensures Split(Join(lines)) == lines
  {
    if |lines| > 1 {
      var a, tail := lines[0], Join(lines[1..]);
      var s := Join(lines);
      assert s == a + "\n" + tail;
      assert s[..|a|] == a;
      assert s[|a|] == '\n';
      forall i | 0 <= i < |a| ensures s[i] != '\n' {
        assert s[i] == a[i];
      }
      assert IndexOf(s, '\n') == |a|;
      assert s[|a| + 1..] == tail;
      SplitJoin(lines[1..]);
    }
  }

  /** Where line i starts inside '\n'.join(lines). */
  function LineOffset(lines: seq<string>, i: nat): nat
    requires i < |lines|
  {
    if i == 0 then 0 else |lines[0]| + 1 + LineOffset(lines[1..], i - 1)
  }

  /** Each line is a piece of the joined text, found at its offset. */
  lemma {:induction false} LineInJoin(lines: seq<string>, i: nat)
    requires i < |lines|
    ensures LineOffset(lines, i) + |lines[i]| <= |Join(lines)|
    ensures Join(lines)[LineOffset(lines, i)..LineOffset(lines, i) + |lines[i]|] == lines[i]
  {
    if i > 0 {
      LineInJoin(lines[1..], i - 1);
      var a, tail := lines[0], Join(lines[1..]);
      assert Join(lines) == a + "\n" + tail;
      var o := LineOffset(lines[1..], i - 1);
      assert Join(lines)[|a| + 1 + o..|a| + 1 + o + |lines[i]|] == tail[o..o + |lines[i]|];
    }
  }

  /** Line i, folded, is the piece of the folded joined text at the line's offset. */
  lemma FoldedLineInJoin(lines: seq<string>, i: nat, caseSensitive: bool)
    requires i < |lines|
    ensures LineOffset(lines, i) + |lines[i]| <= |Join(lines)|
    ensures Fold(Join(lines), caseSensitive)[LineOffset(lines, i)..LineOffset(lines, i) + |lines[i]|] == Fold(lines[i], caseSensitive)
  {
    LineInJoin(lines, i);
    FoldPiece(Join(lines), lines[i], LineOffset(lines, i), caseSensitive);
  }

  /** Where the query occurs in a text it matches. */
  lemma MatchWitness(query: string, s: string, caseSensitive: bool) returns (at: nat)
    requires Matches(query, s, caseSensitive)
    ensures OccursAt(Fold(s, caseSensitive), Fold(query, caseSensitive), at)
  {
    at :| 0 <= at <= |Fold(s, caseSensitive)| - |Fold(query, caseSensitive)| && OccursAt(Fold(s, caseSensitive), Fold(query, caseSensitive), at);
  }

  /** A line that matches the query makes the joined text match it too, at the returned index. */
  lemma LineMatchInJoin(lines: seq<string>, i: nat, query: string, caseSensitive: bool) returns (at: nat)
    requires i < |lines| && Matches(query, lines[i], caseSensitive)
    ensures OccursAt(Fold(Join(lines), caseSensitive), Fold(query, caseSensitive), at)
    ensures Matches(query, Join(lines), caseSensitive)
  {
    var f, q := Fold(Join(lines), caseSensitive), Fold(query, caseSensitive);
    var o := LineOffset(lines, i);
    FoldedLineInJoin(lines, i, caseSensitive);
    var k := MatchWitness(query, lines[i], caseSensitive);
    OccursFromPiece(f, Fold(lines[i], caseSensitive), q, o, k);
    at := o + k;
    assert 0 <= at <= |f| - |q| && OccursAt(f, q, at);
  }

  /** A non-empty query matches only a non-empty text. */
  lemma MatchNeedsText(query: string, s: string, caseSensitive: bool)
    requires query != "" && Matches(query, s, caseSensitive)
    ensures s != ""
  {
  }

  // ---------------------------------------------------------------------------
  // Whitespace and str.strip()
  // ---------------------------------------------------------------------------

  /** str.isspace on one character. */
  predicate IsSpace(c: char)
  {
    || 9 <= c as int <= 13
    || 28 <= c as int <= 32
    || c as int == 0x85
    || c as int == 0xA0
    || c as int == 0x1680
    || 0x2000 <= c as int <= 0x200A
    || c as int == 0x2028
    || c as int == 0x2029
    || c as int == 0x202F
    || c as int == 0x205F
    || c as int == 0x3000
  }

  lemma LowerKeepsSpace(c: char)
    ensures IsSpace(LowerChar(c)) == IsSpace(c)
  {
  }

  /** Where str.strip() starts: the number of whitespace characters s begins with. */
  function StripLow(s: string): nat
  {
    if s != [] && IsSpace(s[0]) then 1 + StripLow(s[1..]) else 0
  }

  /** Where str.strip() ends: scanning back from the end of s over whitespace, but not past lo. */
  function StripHigh(s: string, lo: nat): nat
  {
    if |s| > lo && IsSpace(s[|s| - 1]) then StripHigh(s[..|s| - 1], lo) else |s|
  }

  /** StripLow skips exactly the leading whitespace. */
  lemma {:induction false} StripLowSpec(s: string)
    ensures StripLow(s) <= |s|
    ensures forall i :: 0 <= i < StripLow(s) ==> IsSpace(s[i])
    ensures StripLow(s) < |s| ==> !IsSpace(s[StripLow(s)])
  {
    if s != [] && IsSpace(s[0]) {
      StripLowSpec(s[1..]);
      forall i | 1 <= i < StripLow(s) ensures IsSpace(s[i]) {
        assert s[i] == s[1..][i - 1];
      }
    }
  }

  /** StripHigh skips exactly the trailing whitespace after lo. */
  lemma {:induction false} StripHighSpec(s: string, lo: nat)
    requires lo <= |s|
    ensures lo <= StripHigh(s, lo) <= |s|
    ensures forall i :: StripHigh(s, lo) <= i < |s| ==> IsSpace(s[i])
    ensures StripHigh(s, lo) > lo ==> !IsSpace(s[StripHigh(s, lo) - 1])
  {
    if |s| > lo && IsSpace(s[|s| - 1]) {
      var t := s[..|s| - 1];
      StripHighSpec(t, lo);
      forall i | StripHigh(s, lo) <= i < |s| - 1 ensures IsSpace(s[i]) {
        assert s[i] == t[i];
      }
    }
  }

  /** str.strip(): s without its leading and trailing whitespace. */
  function Strip(s: string): string
  {
    var lo := StripLow(s);
    StripLowSpec(s);
    StripHighSpec(s, lo);
    s[lo..StripHigh(s, lo)]
  }

  /** Strip leaves nothing exactly when the text is whitespace only. */
  lemma StripEmptyIff(s: string)
    ensures Strip(s) == [] <==> forall i :: 0 <= i < |s| ==> IsSpace(s[i])
  {
    var lo := StripLow(s);
    var hi := StripHigh(s, lo);
    StripLowSpec(s);
    StripHighSpec(s, lo);
    if Strip(s) == [] {
      assert hi == lo;
    }
  }

  /** Stripping twice is stripping once: a stripped query is its own strip. */
  lemma StripIdempotent(s: string)
    ensures Strip(Strip(s)) == Strip(s)
  {
    var lo := StripLow(s);
    var hi := StripHigh(s, lo);
    StripLowSpec(s);
    StripHighSpec(s, lo);
    var t := Strip(s);
    if t != [] {
      assert t[0] == s[lo] && t[|t| - 1] == s[hi - 1];
      assert StripLow(t) == 0;
      assert StripHigh(t, 0) == |t|;
      assert t[0..|t|] == t;
    }
  }

  /** A stripped, non-empty text neither starts nor ends with whitespace. */
  lemma StrippedEnds(q: string)
    requires q != [] && Strip(q) == q
    ensures !IsSpace(q[0]) && !IsSpace(q[|q| - 1])
  {
    var lo := StripLow(q);
    var hi := StripHigh(q, lo);
    StripLowSpec(q);
    StripHighSpec(q, lo);
    assert |Strip(q)| == hi - lo == |q|;
  }

  /** Folding keeps whitespace and non-whitespace apart, so matched characters agree on it. */
  lemma FoldedSpace(s: string, query: string, caseSensitive: bool, at: nat, j: nat)
    requires j < |query| && OccursAt(Fold(s, caseSensitive), Fold(query, caseSensitive), at)
    ensures IsSpace(s[at + j]) == IsSpace(query[j])
  {
    assert Fold(s, caseSensitive)[at + j] == Fold(query, caseSensitive)[j];
    LowerKeepsSpace(s[at + j]);
    LowerKeepsSpace(query[j]);
  }

  /** A non-whitespace character of s lies inside the part that Strip keeps. */
  lemma NonSpaceKept(s: string, k: nat)
    requires k < |s| && !IsSpace(s[k])
    ensures StripLow(s) <= k < StripHigh(s, StripLow(s))
  {
    StripLowSpec(s);
    StripHighSpec(s, StripLow(s));
  }

  /** A piece of s that neither starts nor ends with whitespace lies inside the stripped part. */
  lemma PieceInsideStrip(s: string, at: nat, n: nat)
    requires 0 < n && at + n <= |s|
    requires !IsSpace(s[at]) && !IsSpace(s[at + n - 1])
    ensures StripLow(s) <= at && at + n <= StripHigh(s, StripLow(s))
  {
    NonSpaceKept(s, at);
    NonSpaceKept(s, at + n - 1);
  }

  /**
   * An occurrence of a query that neither starts nor ends with whitespace
   * survives stripping the text around it.
   */
  lemma StripKeepsMatch(s: string, query: string, caseSensitive: bool, at: nat)
    requires query != [] && !IsSpace(query[0]) && !IsSpace(query[|query| - 1])
    requires OccursAt(Fold(s, caseSensitive), Fold(query, caseSensitive), at)
    ensures Matches(query, Strip(s), caseSensitive)
  {
    FoldedSpace(s, query, caseSensitive, at, 0);
    FoldedSpace(s, query, caseSensitive, at, |query| - 1);
    PieceInsideStrip(s, at, |query|);
    var lo := StripLow(s);
    StripHighSpec(s, lo);
    var hi := StripHigh(s, lo);
    var f, q := Fold(s, caseSensitive), Fold(query, caseSensitive);
    OccursInSlice(f, q, lo, hi, at);
    FoldSlice(s, lo, hi, caseSensitive);
    assert OccursAt(Fold(Strip(s), caseSensitive), q, at - lo);
  }

  // ---------------------------------------------------------------------------
  // File extensions: os.path.splitext
  // ---------------------------------------------------------------------------

  /** str.rfind for one character: the last index of c in s, or -1. */
  function RFind(s: string, c: char): (k: int)
    ensures -1 <= k < |s|
    ensures k >= 0 ==> s[k] == c
    ensures forall i :: k < i < |s| ==> s[i] != c
  {
    if s == [] then -1
    else if s[|s| - 1] == c then |s| - 1
    else RFind(s[..|s| - 1], c)
  }

  /**
   * The extension os.path.splitext reports for a POSIX path: the text from the
   * last dot of the last path component, unless only dots come before that dot
   * in the component (a hidden file such as ".pdf" has no extension).
   */
  function Extension(path: string): (ext: string)
    ensures |ext| <= |path| && ext == path[|path| - |ext|..]
    ensures ext == [] || (ext[0] == '.' && '/' !in ext && '.' !in ext[1..])
  {
    var sep := RFind(path, '/');
    var dot := RFind(path, '.');
    if dot > sep && exists j | sep + 1 <= j < dot :: path[j] != '.' then path[dot..] else ""
  }

  /** Text appended without c leaves the last c where it was. */
  lemma {:induction false} RFindAppend(s: string, t: string, c: char)
    requires c !in t
    ensures RFind(s + t, c) == RFind(s, c)
    decreases |t|
  {
    if t != [] {
      var t' := t[..|t| - 1];
      assert (s + t)[..|s + t| - 1] == s + t';
      assert (s + t)[|s + t| - 1] == t[|t| - 1];
      RFindAppend(s, t', c);
    } else {
      assert s + t == s;
    }
  }

  /**
   * The stem of a file name: its last path component holds some character
   * other than '.', so a dot after it starts an extension ("report..pdf"
   * has the stem "report.").
   */
  predicate NamedStem(stem: string)
  {
    exists j :: RFind(stem, '/') < j < |stem| && stem[j] != '.'
  }

  /**
   * A file name made of a stem, a dot and a suffix without dots or slashes
   * has that dot and suffix as its extension.
   */
  lemma ExtensionOfName(stem: string, suffix: string)
    requires NamedStem(stem)
    requires '.' !in suffix && '/' !in suffix
    ensures Extension(stem + "." + suffix) == "." + suffix
  {
    var path := stem + "." + suffix;
    RFindAppend(stem + ".", suffix, '.');
    RFindAppend(stem + ".", suffix, '/');
    RFindAppend(stem, ".", '/');
    assert RFind(stem + ".", '.') == |stem|;
    var j :| RFind(stem, '/') < j < |stem| && stem[j] != '.';
    assert path[j] == stem[j];
    assert path[|stem|..] == "." + suffix;
  }

  // ---------------------------------------------------------------------------
  // Decimal formatting: str(n) for integers
  // ---------------------------------------------------------------------------

  function DigitChar(d: nat): (c: char)
    requires d < 10
    ensures '0' <= c <= '9'
  {
    ('0' as int + d) as char
  }

  /** str(n) for a natural number: decimal digits, with no leading zero except in "0" itself. */
  function NatToString(n: nat): (s: string)
    ensures s != [] && forall i :: 0 <= i < |s| ==> '0' <= s[i] <= '9'
    ensures n == 0 ==> s == "0"
    ensures n > 0 ==> s[0] != '0'
  {
    if n < 10 then [DigitChar(n)] else NatToString(n / 10) + [DigitChar(n % 10)]
  }

  /** The number a string of decimal digits denotes. */
  function DigitsValue(s: string): nat
    requires forall i :: 0 <= i < |s| ==> '0' <= s[i] <= '9'
  {
    if s == [] then 0 else 10 * DigitsValue(s[..|s| - 1]) + (s[|s| - 1] as int - '0' as int)
  }

  /** The digits of n denote n: str(n) loses nothing. */
  lemma {:induction false} NatToStringValue(n: nat)
    ensures DigitsValue(NatToString(n)) == n
  {
    var s := NatToString(n);
    if n >= 10 {
      var q, d := n / 10, n % 10;
      NatToStringValue(q);
      assert s == NatToString(q) + [DigitChar(d)];
      assert s[..|s| - 1] == NatToString(q);
      assert s[|s| - 1] as int - '0' as int == d;
      assert n == 10 * q + d;
    }
  }

  /** str(n) for any integer: a minus sign before the digits of a negative number. */
  function IntToString(n: int): string
  {
    if n < 0 then "-" + NatToString(-n) else NatToString(n)
  }
}
