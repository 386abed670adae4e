/** The JavaScript string operations the core relies on: truthiness of a
    nullable string, `String.prototype.trim` and `split` on a one-character
    separator, together with the first and last position of a character,
    which locate where a brace-delimited regular-expression match starts and
    ends and which `split` uses to find its separator. Strings are sequences
    of code points. */
module JsString {
  import opened Wrappers

  /** JavaScript truthiness of a nullable string: `null` and `""` are falsy. */
  predicate Truthy(s: Option<string>): (b: bool)
    ensures !b <==> s == None || s == Some("")
  {
    s.Some? && s.value != ""
  }

  /** The WhiteSpace and LineTerminator code points that `trim` strips
      (sections 12.2 and 12.3 of ECMA-262). */
  predicate IsWhitespace(c: char) {
    || c == '\t' || c == '\n' || c == '\U{000B}' || c == '\U{000C}' || c == '\r'
    || c == ' ' || c == '\U{00A0}' || c == '\U{1680}'
    || ('\U{2000}' <= c <= '\U{200A}')
    || c == '\U{2028}' || c == '\U{2029}' || c == '\U{202F}' || c == '\U{205F}'
    || c == '\U{3000}' || c == '\U{FEFF}'
  }

  /** Number of whitespace code points at the start of `s`. */
  function LeadingSpace(s: string): (n: nat)
    ensures n <= |s|
    ensures forall i :: 0 <= i < n ==> IsWhitespace(s[i])
    ensures n < |s| ==> !IsWhitespace(s[n])
  {
    if s != [] && IsWhitespace(s[0]) then 1 + LeadingSpace(s[1..]) else 0
  }

  /** Number of whitespace code points at the end of `s`. */
  function TrailingSpace(s: string): (n: nat)
    ensures n <= |s|
    ensures forall i :: |s| - n <= i < |s| ==> IsWhitespace(s[i])
    ensures n < |s| ==> !IsWhitespace(s[|s| - n - 1])
  {
    if s != [] && IsWhitespace(s[|s| - 1]) then 1 + TrailingSpace(s[..|s| - 1]) else 0
  }

  /** `s.trim()`: the longest slice of `s` that neither starts nor ends with
      whitespace, everything outside it being whitespace. */
  function Trim(s: string): (r: string)
    ensures LeadingSpace(s) + |r| <= |s|
    ensures r == s[LeadingSpace(s)..LeadingSpace(s) + |r|]
    ensures forall i :: 0 <= i < |s| && !(LeadingSpace(s) <= i < LeadingSpace(s) + |r|) ==> IsWhitespace(s[i])
    ensures r == [] || (!IsWhitespace(r[0]) && !IsWhitespace(r[|r| - 1]))
  {
    var t := s[LeadingSpace(s)..];
    t[..|t| - TrailingSpace(t)]
  }

  /** A string with no whitespace at all is its own trim. */
  lemma TrimNoSpace(s: string)
    requires forall i :: 0 <= i < |s| ==> !IsWhitespace(s[i])
    ensures Trim(s) == s
  {
  }

  /** Trimming twice is trimming once. */
  lemma TrimIdempotent(s: string)
    ensures Trim(Trim(s)) == Trim(s)
  {
    var r := Trim(s);
    assert LeadingSpace(r) == 0;
    assert r == [] || TrailingSpace(r) == 0;
  }

  /** `trim` is determined by its characterisation: a slice whose outside is
      all whitespace and whose ends are not whitespace is the trim. */
  lemma TrimUnique(s: string, lo: nat, hi: nat)
    requires lo <= hi <= |s|
    requires forall i :: 0 <= i < |s| && !(lo <= i < hi) ==> IsWhitespace(s[i])
    requires lo == hi || (!IsWhitespace(s[lo]) && !IsWhitespace(s[hi - 1]))
    ensures Trim(s) == s[lo..hi]
  {
    var r := Trim(s);
    var l := LeadingSpace(s);
    if lo < hi {
      assert l <= lo;
      assert l == lo;
      assert l + |r| >= hi;
      assert l + |r| <= hi;
    } else {
      assert l == |s|;
    }
  }

  /** Whitespace added around a string does not change its trim. */
  lemma TrimPadded(s: string, pre: string, post: string)
    requires forall i :: 0 <= i < |pre| ==> IsWhitespace(pre[i])
    requires forall i :: 0 <= i < |post| ==> IsWhitespace(post[i])
    ensures Trim(pre + s + post) == Trim(s)
  {
    var x := pre + s + post;
    var t := Trim(s);
    var lo := |pre| + LeadingSpace(s);
    var hi := lo + |t|;
    assert x[lo..hi] == t;
    forall i | 0 <= i < |x| && !(lo <= i < hi)
      ensures IsWhitespace(x[i])
    {
      if i < |pre| {
        assert x[i] == pre[i];
      } else if i < |pre| + |s| {
        assert x[i] == s[i - |pre|];
      } else {
        assert x[i] == post[i - |pre| - |s|];
      }
    }
    TrimUnique(x, lo, hi);
  }

  /** The first position of `c` in `s` (what `s.indexOf(c)` gives), or
      `None` when there is none; the start of a `{`-led match. */
  function IndexOf(s: string, c: char): (r: Option<nat>)
    ensures r.None? <==> c !in s
    ensures r.Some? ==> r.value < |s| && s[r.value] == c && c !in s[..r.value]
  {
    if s == [] then None
    else if s[0] == c then Some(0)
    else match IndexOf(s[1..], c)
      case None => None
      case Some(i) => Some(i + 1)
  }

  /** The last position of `c` in `s` (what `s.lastIndexOf(c)` gives), or
      `None` when there is none; the end of a `}`-closed greedy match. */
  function LastIndexOf(s: string, c: char): (r: Option<nat>)
    ensures r.None? <==> c !in s
    ensures r.Some? ==> r.value < |s| && s[r.value] == c && c !in s[r.value + 1..]
  {
    if s == [] then None
    else if s[|s| - 1] == c then Some(|s| - 1)
    else LastIndexOf(s[..|s| - 1], c)
  }

  /** `s.split(sep)` for a one-character separator and no limit: the pieces
      between consecutive separators, at least one piece, none containing
      the separator. */
  function Split(s: string, sep: char): (parts: seq<string>)
    ensures |parts| >= 1
    ensures forall k :: 0 <= k < |parts| ==> sep !in parts[k]
    decreases |s|
  {
    match IndexOf(s, sep)
    case None => [s]
    case Some(i) => [s[..i]] + Split(s[i + 1..], sep)
  }

  /** `parts.join(sep)`. */
  function Join(parts: seq<string>, sep: char): string
    requires |parts| >= 1
  {
    if |parts| == 1 then parts[0] else parts[0] + [sep] + Join(parts[1..], sep)
  }

  /** Splitting loses nothing: joining the pieces back gives the string. */
  lemma {:induction false} JoinSplit(s: string, sep: char)
    ensures Join(Split(s, sep), sep) == s
    decreases |s|
  {
    var first := IndexOf(s, sep);
    if first.None? {
      SplitWhole(s, sep);
    } else {
      var i := first.value;
      var rest := Split(s[i + 1..], sep);
      SplitStep(s, sep, i);
      JoinCons(s[..i], rest, sep);
      JoinSplit(s[i + 1..], sep);
      Reassemble(s, i);
    }
  }

  /** A string is the part before position `i`, the code point at `i` and
      the part after it. */
  lemma Reassemble(s: string, i: nat)
    requires i < |s|
    ensures s == s[..i] + [s[i]] + s[i + 1..]
  {
  }

  lemma JoinCons(p: string, rest: seq<string>, sep: char)
    requires |rest| >= 1
    ensures Join([p] + rest, sep) == p + [sep] + Join(rest, sep)
  {
    assert ([p] + rest)[1..] == rest;
  }

  /** Splitting a join of separator-free pieces gives the pieces back. */
  lemma {:induction false} SplitJoin(parts: seq<string>, sep: char)
    requires |parts| >= 1
    requires forall k :: 0 <= k < |parts| ==> sep !in parts[k]
    ensures Split(Join(parts, sep), sep) == parts
    decreases |parts|
  {
    if |parts| > 1 {
      var tail := Join(parts[1..], sep);
      assert Join(parts, sep) == parts[0] + [sep] + tail;
      SplitJoin(parts[1..], sep);
      SplitAfterFirst(parts[0], tail, sep);
      assert parts == [parts[0]] + parts[1..];
    } else {
      SplitWhole(parts[0], sep);
    }
  }

  /** A string without the separator is a single piece. */
  lemma SplitWhole(s: string, sep: char)
    requires sep !in s
    ensures Split(s, sep) == [s]
  {
  }

  /** One step of `split`: the piece before the first separator, then the
      pieces of the rest. */
  lemma SplitStep(s: string, sep: char, i: nat)
    requires IndexOf(s, sep) == Some(i)
    ensures Split(s, sep) == [s[..i]] + Split(s[i + 1..], sep)
  {
  }

  /** With no separator in `a`, `a + sep + b` splits into `a` then the pieces of `b`. */
  lemma SplitAfterFirst(a: string, b: string, sep: char)
    requires sep !in a
    ensures Split(a + [sep] + b, sep) == [a] + Split(b, sep)
  {
    var s := a + [sep] + b;
    FirstSeparator(a, b, sep);
    SplitStep(s, sep, |a|);
    assert s[..|a|] == a;
    assert s[|a| + 1..] == b;
  }

  /** In `a + sep + b` with no separator in `a`, the first separator is the
      one after `a`. */
  lemma FirstSeparator(a: string, b: string, sep: char)
    requires sep !in a
    ensures IndexOf(a + [sep] + b, sep) == Some(|a|)
  {
    var s := a + [sep] + b;
    assert s[..|a|] == a;
    IndexOfAt(s, sep, |a|);
  }

  /** A position holding `c` with no earlier `c` is what `indexOf` finds. */
  lemma {:induction false} IndexOfAt(s: string, c: char, i: nat)
    requires i < |s| && s[i] == c && c !in s[..i]
    ensures IndexOf(s, c) == Some(i)
    decreases i
  {
    if i > 0 {
      assert s[0] == s[..i][0];
      var t := s[1..][..i - 1];
      assert c !in t by {
        forall k | 0 <= k < |t|
          ensures t[k] != c
        {
          assert t[k] == s[..i][k + 1];
        }
      }
      IndexOfAt(s[1..], c, i - 1);
    }
  }
}
