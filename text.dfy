/**
 * The JavaScript string operations the pages rely on: `trim`, `toLowerCase`,
 * `indexOf`/`includes`, `endsWith` and `split`, stated over `seq<char>`.
 */
module Text {
  import opened Basics

  /** The WhiteSpace and LineTerminator code points, which `String.prototype.trim` removes. */
  predicate IsSpace(c: char) {
    || c == '\t' || c == '\n' || c == '\U{000B}' || c == '\U{000C}' || c == '\r'
    || c == ' ' || c == '\U{00A0}' || c == '\U{1680}'
    || ('\U{2000}' <= c <= '\U{200A}')
    || c == '\U{2028}' || c == '\U{2029}' || c == '\U{202F}' || c == '\U{205F}'
    || c == '\U{3000}' || c == '\U{FEFF}'
  }

  /** A string that `trim` turns into the empty string. */
  predicate IsBlank(s: string) {
    forall k :: 0 <= k < |s| ==> IsSpace(s[k])
  }

  function TrimStart(s: string): (r: string)
    ensures |r| <= |s| && r == s[|s| - |r|..]
    ensures r == [] || !IsSpace(r[0])
    ensures forall k :: 0 <= k < |s| - |r| ==> IsSpace(s[k])
  {
    if s != [] && IsSpace(s[0]) then TrimStart(s[1..]) else s
  }

  function TrimEnd(s: string): (r: string)
    ensures |r| <= |s| && r == s[..|r|]
    ensures r == [] || !IsSpace(r[|r| - 1])
    ensures forall k :: |r| <= k < |s| ==> IsSpace(s[k])
  {
    if s != [] && IsSpace(s[|s| - 1]) then TrimEnd(s[..|s| - 1]) else s
  }

  /**
   * `s.trim()`: the longest infix of `s` that neither starts nor ends with
   * white space; everything cut off is white space (`TrimIsInfix`).
   */
  function Trim(s: string): (r: string)
    ensures r == [] || (!IsSpace(r[0]) && !IsSpace(r[|r| - 1]))
    ensures r == [] <==> IsBlank(s)
    ensures |r| <= |s|
  {
    var t := TrimStart(s);
    var r := TrimEnd(t);
    TrimCut(s, t, r);
    r
  }

  /** `trim` keeps an infix of its input and cuts off only white space before and after it. */
  lemma TrimIsInfix(s: string)
    ensures exists i, j :: 0 <= i <= j <= |s| && Trim(s) == s[i..j] && IsBlank(s[..i]) && IsBlank(s[j..])
  {
    var t := TrimStart(s);
    TrimCut(s, t, TrimEnd(t));
  }

  /** The two halves of `Trim` cut white space off an infix of `s`. */
  lemma TrimCut(s: string, t: string, r: string)
    requires |t| <= |s| && t == s[|s| - |t|..] && forall k :: 0 <= k < |s| - |t| ==> IsSpace(s[k])
    requires |r| <= |t| && r == t[..|r|] && forall k :: |r| <= k < |t| ==> IsSpace(t[k])
    requires r == [] || !IsSpace(r[0])
    ensures r == [] <==> IsBlank(s)
    ensures |s| - |t| <= |s| - |t| + |r| <= |s| && r == s[|s| - |t|..|s| - |t| + |r|]
    ensures IsBlank(s[..|s| - |t|]) && IsBlank(s[|s| - |t| + |r|..])
  {
    var i := |s| - |t|;
    assert forall k :: 0 <= k < |r| ==> r[k] == s[i + k];
    forall k | i + |r| <= k < |s|
      ensures IsSpace(s[k])
    {
      assert s[k] == t[k - i];
    }
    if r != [] {
      assert s[i] == r[0];
    }
  }

  /** `toLowerCase` on the ASCII letters; every other character is kept. */
  function LowerChar(c: char): char {
    if 'A' <= c <= 'Z' then (c as int + 32) as char else c
  }

  function ToLower(s: string): (r: string)
    ensures |r| == |s|
  {
    seq(|s|, k requires 0 <= k < |s| => LowerChar(s[k]))
  }

  lemma ToLowerIdempotent(s: string)
    ensures ToLower(ToLower(s)) == ToLower(s)
  {
  }

  function EndsWith(s: string, suffix: string): bool {
    |suffix| <= |s| && s[|s| - |suffix|..] == suffix
  }

  /** `sub` occurs in `s` starting at index `k`. */
  predicate OccursAt(s: string, sub: string, k: int) {
    0 <= k && k + |sub| <= |s| && s[k..k + |sub|] == sub
  }

  /** The first index at or after `from` at which `sub` occurs, if any. */
  function IndexFrom(s: string, sub: string, from: nat): (r: Option<nat>)
    ensures r.Some? ==> from <= r.value && OccursAt(s, sub, r.value)
    ensures r.Some? ==> forall j :: from <= j < r.value ==> !OccursAt(s, sub, j)
    ensures r.None? ==> forall j :: from <= j ==> !OccursAt(s, sub, j)
    decreases |s| - from
  {
    if from + |sub| > |s| then None
    else if s[from..from + |sub|] == sub then Some(from)
    else IndexFrom(s, sub, from + 1)
  }

  /** `s.indexOf(sub)`: the first index at which `sub` occurs, if any. */
  function IndexOf(s: string, sub: string): (r: Option<nat>)
    ensures r.Some? ==> OccursAt(s, sub, r.value)
    ensures r.Some? ==> forall j :: 0 <= j < r.value ==> !OccursAt(s, sub, j)
    ensures r.None? ==> forall j :: !OccursAt(s, sub, j)
  {
    IndexFrom(s, sub, 0)
  }

  /** `s.includes(sub)`. */
  predicate Contains(s: string, sub: string) {
    IndexOf(s, sub).Some?
  }

  lemma ContainsEmpty(s: string)
    ensures Contains(s, [])
  {
    assert s[..0] == [];
  }

  /** For a one-character needle, `includes` is membership. */
  lemma ContainsChar(s: string, c: char)
    ensures Contains(s, [c]) <==> c in s
  {
    if c in s {
      var k :| 0 <= k < |s| && s[k] == c;
      assert OccursAt(s, [c], k);
    }
    if Contains(s, [c]) {
      var k := IndexOf(s, [c]).value;
      assert s[k..k + 1] == [c];
      assert s[k] == c;
    }
  }

  /** For a one-character needle, `indexOf` finds the first position holding that character. */
  lemma IndexOfChar(s: string, c: char)
    ensures IndexOf(s, [c]).Some? ==> s[IndexOf(s, [c]).value] == c && c !in s[..IndexOf(s, [c]).value]
    ensures IndexOf(s, [c]).None? <==> c !in s
  {
    ContainsChar(s, c);
    var i := IndexOf(s, [c]);
    if i.Some? {
      var k := i.value;
      assert s[k..k + 1] == [c];
      forall j | 0 <= j < k
        ensures s[j] != c
      {
        assert !OccursAt(s, [c], j);
        assert s[j..j + 1] == [s[j]];
      }
    }
  }

  /** `s.split(sep)` for a non-empty separator: the pieces between the successive leftmost occurrences. */
  function Split(s: string, sep: string): (parts: seq<string>)
    requires sep != []
    ensures |parts| >= 1
    decreases |s|
  {
    match IndexOf(s, sep)
    case None => [s]
    case Some(k) => [s[..k]] + Split(s[k + |sep|..], sep)
  }

  /** `parts.join(sep)`. */
  function Join(parts: seq<string>, sep: string): string
    requires |parts| >= 1
  {
    if |parts| == 1 then parts[0] else parts[0] + sep + Join(parts[1..], sep)
  }

  /** An occurrence cuts the string into what comes before it, the needle and what follows. */
  lemma CutAt(s: string, sub: string, k: nat)
    requires OccursAt(s, sub, k)
    ensures s == s[..k] + sub + s[k + |sub|..]
  {
  }

  /** Splitting loses nothing: joining the pieces with the separator gives the string back. */
  lemma {:induction false} SplitJoin(s: string, sep: string)
    requires sep != []
    ensures Join(Split(s, sep), sep) == s
    decreases |s|
  {
    var i := IndexOf(s, sep);
    if i.Some? {
      var k := i.value;
      var rest := s[k + |sep|..];
      var tail := Split(rest, sep);
      assert Split(s, sep) == [s[..k]] + tail;
      SplitJoin(rest, sep);
      CutAt(s, sep, k);
      assert Join(Split(s, sep), sep) == s[..k] + sep + Join(tail, sep);
    }
  }

  /** No piece of a split contains the separator. */
  lemma {:induction false} SplitPiecesFree(s: string, sep: string)
    requires sep != []
    ensures forall i :: 0 <= i < |Split(s, sep)| ==> !Contains(Split(s, sep)[i], sep)
    decreases |s|
  {
    match IndexOf(s, sep)
    case None =>
    case Some(k) =>
      var rest := s[k + |sep|..];
      SplitPiecesFree(rest, sep);
      var head := s[..k];
      if Contains(head, sep) {
        var j := IndexOf(head, sep).value;
        assert head[j..j + |sep|] == s[j..j + |sep|];
        assert OccursAt(s, sep, j);
        assert false;
      }
      assert Split(s, sep) == [head] + Split(rest, sep);
  }

  /** The first piece of a split is a prefix, followed by the separator when it is not the whole string. */
  lemma SplitFirst(s: string, sep: string)
    requires sep != []
    ensures var p := Split(s, sep)[0];
      |p| <= |s| && s[..|p|] == p && (|p| < |s| ==> OccursAt(s, sep, |p|))
  {
  }

  /** A separator whose first occurrence is followed by too little text to hold another splits the string in two. */
  lemma SplitOnce(p: string, sep: string, rest: string)
    requires sep != [] && IndexOf(p + sep + rest, sep) == Some(|p|) && |rest| < |sep|
    ensures Split(p + sep + rest, sep) == [p, rest]
  {
    var s := p + sep + rest;
    assert s[..|p|] == p;
    assert s[|p| + |sep|..] == rest;
    assert IndexOf(rest, sep).None?;
  }

  /** A suffix of `b` is a suffix of anything that ends with `b`. */
  lemma EndsWithAppend(a: string, b: string, t: string)
    requires EndsWith(b, t)
    ensures EndsWith(a + b, t)
  {
    assert (a + b)[|a + b| - |t|..] == b[|b| - |t|..];
  }

  /** A string splits into one piece exactly when it does not contain the separator, and that piece is the string. */
  lemma SplitOnePiece(s: string, sep: string)
    requires sep != []
    ensures |Split(s, sep)| == 1 <==> !Contains(s, sep)
    ensures |Split(s, sep)| == 1 ==> Split(s, sep) == [s]
  {
    var i := IndexOf(s, sep);
    if i.Some? {
      assert Split(s, sep) == [s[..i.value]] + Split(s[i.value + |sep|..], sep);
    }
  }

  /** Splitting at the first occurrence: the pieces are the text before it followed by the pieces of the text after it. */
  lemma SplitUnfold(s: string, sep: string)
    requires sep != [] && Contains(s, sep)
    ensures var k := IndexOf(s, sep).value;
      && s == s[..k] + sep + s[k + |sep|..]
      && Split(s, sep) == [s[..k]] + Split(s[k + |sep|..], sep)
  {
    CutAt(s, sep, IndexOf(s, sep).value);
  }

  /** The text after a separator ends the whole string, and so does that separator followed by it. */
  lemma EndsAfterSeparator(head: string, sep: string, rest: string)
    ensures EndsWith(head + sep + rest, rest) && EndsWith(head + sep + rest, sep + rest)
  {
    var x := head + sep + rest;
    assert x[|head| + |sep|..] == rest;
    assert x[|head|..] == sep + rest;
  }

  /** The last piece ends the string and, when there are several pieces, the separator comes right before it. */
  lemma {:induction false} SplitLast(s: string, sep: string)
    requires sep != []
    ensures EndsWith(s, Split(s, sep)[|Split(s, sep)| - 1])
    ensures |Split(s, sep)| > 1 ==> EndsWith(s, sep + Split(s, sep)[|Split(s, sep)| - 1])
    decreases |s|
  {
    SplitOnePiece(s, sep);
    if !Contains(s, sep) {
      assert Split(s, sep) == [s];
      assert s[0..] == s;
    } else {
      SplitUnfold(s, sep);
      var k := IndexOf(s, sep).value;
      var rest := s[k + |sep|..];
      var tail := Split(rest, sep);
      assert Split(s, sep)[|Split(s, sep)| - 1] == tail[|tail| - 1];
      SplitLast(rest, sep);
      SplitOnePiece(rest, sep);
      EndsAfterSeparator(s[..k], sep, rest);
      EndsWithAppend(s[..k] + sep, rest, tail[|tail| - 1]);
      if |tail| > 1 {
        EndsWithAppend(s[..k] + sep, rest, sep + tail[|tail| - 1]);
      }
    }
  }

  /** The first piece of a split on one character is a prefix free of that character, followed by it unless it is the whole string. */
  lemma SplitFirstChar(s: string, c: char)
    ensures var p := Split(s, [c])[0];
      && c !in p && |p| <= |s| && s[..|p|] == p && (|p| < |s| ==> s[|p|] == c)
  {
    var p := Split(s, [c])[0];
    SplitFirst(s, [c]);
    SplitPiecesFree(s, [c]);
    ContainsChar(p, c);
    if |p| < |s| {
      assert s[|p|..|p| + 1] == [c];
    }
  }

  function DigitChar(d: nat): char
    requires d < 10
  {
    ('0' as int + d) as char
  }

  function DigitValue(c: char): nat {
    if '0' <= c <= '9' then c as nat - '0' as nat else 0
  }

  /** The decimal text of a number, as a template literal prints it. */
  function NatToString(n: nat): (s: string)
    ensures 1 <= |s|
    ensures forall k :: 0 <= k < |s| ==> '0' <= s[k] <= '9'
    decreases n
  {
    if n < 10 then [DigitChar(n)] else NatToString(n / 10) + [DigitChar(n % 10)]
  }

  /** Reads a string of decimal digits back as a number. */
  function DecimalValue(s: string): nat {
    if s == [] then 0 else 10 * DecimalValue(s[..|s| - 1]) + DigitValue(s[|s| - 1])
  }

  /** The count in a label can be read back exactly. */
  lemma {:induction false} NatToStringRoundTrip(n: nat)
    ensures DecimalValue(NatToString(n)) == n
    decreases n
  {
    var s := NatToString(n);
    if n >= 10 {
      NatToStringRoundTrip(n / 10);
      assert s[..|s| - 1] == NatToString(n / 10);
    }
  }
}
