/**
 The string operations of JavaScript that the schedule evaluator relies on:
 `indexOf`/`includes`, `split` with a non-empty string separator, and `trim`.
 Strings are sequences of `char`; the evaluator never splits with an empty
 separator or with a regular expression, so neither is modelled.
 */
module JsString {

  datatype Option<T> = None | Some(value: T)

  /** `pat` occurs in `s` starting at index `i`. */
  predicate OccursAt(s: string, pat: string, i: nat)
  {
    i + |pat| <= |s| && s[i..i + |pat|] == pat
  }

  /** `s.indexOf(pat, from)`: the first index at or after `from` where `pat` occurs. */
  function IndexOf(s: string, pat: string, from: nat): (r: Option<nat>)
    requires from <= |s|
    ensures r.Some? ==> from <= r.value <= |s| && OccursAt(s, pat, r.value)
    ensures r.Some? ==> forall j: nat :: from <= j < r.value ==> !OccursAt(s, pat, j)
    ensures r.None? ==> forall j: nat :: from <= j ==> !OccursAt(s, pat, j)
    decreases |s| - from
  {
    if OccursAt(s, pat, from) then Some(from)
    else if from == |s| then None
    else IndexOf(s, pat, from + 1)
  }

  /** `s.includes(pat)`. */
  predicate Includes(s: string, pat: string)
  {
    IndexOf(s, pat, 0).Some?
  }

  /** `includes` holds exactly when `pat` occurs somewhere in `s`. */
  lemma IncludesIff(s: string, pat: string)
    ensures Includes(s, pat) <==> exists i: nat :: OccursAt(s, pat, i)
  {
    if exists i: nat :: OccursAt(s, pat, i) {
      var i: nat :| OccursAt(s, pat, i);
      assert !IndexOf(s, pat, 0).None?;
    }
  }

  /** The first occurrence is the one `indexOf` reports. */
  lemma IndexOfFirst(s: string, pat: string, i: nat)
    requires OccursAt(s, pat, i)
    requires forall j: nat :: j < i ==> !OccursAt(s, pat, j)
    ensures IndexOf(s, pat, 0) == Some(i)
  {
    var r := IndexOf(s, pat, 0);
    assert r.Some?;
  }

  /** A pattern one of whose characters is absent from `s` does not occur in `s`. */
  lemma AbsentChar(s: string, pat: string, k: nat)
    requires k < |pat| && pat[k] !in s
    ensures !Includes(s, pat)
  {
    forall i: nat ensures !OccursAt(s, pat, i) {
      if i + |pat| <= |s| {
        assert s[i..i + |pat|][k] == s[i + k];
        assert s[i + k] in s;
      }
    }
    IncludesIff(s, pat);
  }

  /** An occurrence in a prefix is an occurrence in the whole string. */
  lemma IncludesPrefix(a: string, b: string, pat: string)
    requires Includes(a, pat)
    ensures Includes(a + b, pat)
  {
    IncludesIff(a, pat);
    var i: nat :| OccursAt(a, pat, i);
    assert (a + b)[i..i + |pat|] == a[i..i + |pat|];
    assert OccursAt(a + b, pat, i);
    IncludesIff(a + b, pat);
  }

  /** An occurrence in a suffix is an occurrence in the whole string. */
  lemma IncludesSuffix(a: string, b: string, pat: string)
    requires Includes(b, pat)
    ensures Includes(a + b, pat)
  {
    IncludesIff(b, pat);
    var i: nat :| OccursAt(b, pat, i);
    assert (a + b)[|a| + i..|a| + i + |pat|] == b[i..i + |pat|];
    assert OccursAt(a + b, pat, |a| + i);
    IncludesIff(a + b, pat);
  }

  /**
   A pattern that does not contain `ch` occurs in `a + [ch] + b` exactly when
   it occurs in `a` or in `b`: no occurrence can reach across `ch`.
   */
  lemma IncludesAround(a: string, ch: char, b: string, pat: string)
    requires ch !in pat
    ensures Includes(a + [ch] + b, pat) <==> Includes(a, pat) || Includes(b, pat)
  {
    var s := a + [ch] + b;
    if Includes(s, pat) {
      IncludesIff(s, pat);
      var i: nat :| OccursAt(s, pat, i);
      OccursAround(a, ch, b, pat, i);
      IncludesIff(a, pat);
      IncludesIff(b, pat);
    }
    if Includes(a, pat) {
      IncludesPrefix(a, [ch] + b, pat);
      assert s == a + ([ch] + b);
    }
    if Includes(b, pat) {
      IncludesSuffix(a + [ch], b, pat);
    }
  }

  /** An occurrence in `a + [ch] + b` of a pattern without `ch` lies wholly in `a` or wholly in `b`. */
  lemma OccursAround(a: string, ch: char, b: string, pat: string, i: nat)
    requires ch !in pat && OccursAt(a + [ch] + b, pat, i)
    ensures OccursAt(a, pat, i) || (i > |a| && OccursAt(b, pat, i - |a| - 1))
  {
    var s := a + [ch] + b;
    assert s[i..i + |pat|] == pat;
    assert forall k :: i <= k < i + |pat| ==> s[k] == pat[k - i] && s[k] != ch;
    assert s[|a|] == ch;
    if i + |pat| <= |a| {
      assert a[i..i + |pat|] == s[i..i + |pat|];
    } else if i > |a| {
      var j: nat := i - |a| - 1;
      assert b[j..j + |pat|] == s[i..i + |pat|];
    }
  }

  /**
   `s.split(sep)` for a non-empty string separator: the pieces between the
   leftmost non-overlapping occurrences of `sep`. It always yields at least one
   piece, and exactly one when `sep` does not occur.
   */
  function Split(s: string, sep: string): (parts: seq<string>)
    requires sep != []
    ensures |parts| >= 1
    decreases |s|
  {
    match IndexOf(s, sep, 0)
    case None => [s]
    case Some(i) => [s[..i]] + Split(s[i + |sep|..], sep)
  }

  /** A split yields a single piece, the string itself, exactly when the separator does not occur. */
  lemma SplitSingle(s: string, sep: string)
    requires sep != []
    ensures |Split(s, sep)| == 1 <==> !Includes(s, sep)
    ensures !Includes(s, sep) ==> Split(s, sep) == [s]
  {
  }

  /** `parts.join(sep)`. */
  function Join(parts: seq<string>, sep: string): string
    requires |parts| >= 1
  {
    if |parts| == 1 then parts[0] else parts[0] + sep + Join(parts[1..], sep)
  }

  /** Joining the pieces of a split with the same separator gives back the string. */
  lemma {:induction false} JoinSplit(s: string, sep: string)
    requires sep != []
    ensures Join(Split(s, sep), sep) == s
    decreases |s|
  {
    var found := IndexOf(s, sep, 0);
    if found.Some? {
      var i := found.value;
      var rest := s[i + |sep|..];
      JoinSplit(rest, sep);
      SplitStep(s, sep, i);
      assert s == s[..i] + sep + rest by {
        assert s[i..i + |sep|] == sep;
        assert s == s[..i] + s[i..i + |sep|] + rest;
      }
    }
  }

  /** When `sep` first occurs at `i`, the join of the split is `s[..i]`, `sep` and the join of the rest. */
  lemma SplitStep(s: string, sep: string, i: nat)
    requires sep != [] && IndexOf(s, sep, 0) == Some(i)
    ensures Join(Split(s, sep), sep) == s[..i] + sep + Join(Split(s[i + |sep|..], sep), sep)
  {
    var parts, rest := Split(s, sep), Split(s[i + |sep|..], sep);
    assert parts == [s[..i]] + rest;
    assert parts[0] == s[..i] && parts[1..] == rest;
    assert Join(parts, sep) == parts[0] + sep + Join(parts[1..], sep);
  }

  /** No piece of a split contains the separator. */
  lemma {:induction false} SplitPiecesFree(s: string, sep: string)
    requires sep != []
    ensures forall k :: 0 <= k < |Split(s, sep)| ==> !Includes(Split(s, sep)[k], sep)
    decreases |s|
  {
    match IndexOf(s, sep, 0)
    case None =>
    case Some(i) =>
      var rest := s[i + |sep|..];
      SplitPiecesFree(rest, sep);
      var head := s[..i];
      if Includes(head, sep) {
        IncludesIff(head, sep);
        var j: nat :| OccursAt(head, sep, j);
        assert s[j..j + |sep|] == head[j..j + |sep|];
        assert OccursAt(s, sep, j);
      }
      assert Split(s, sep) == [head] + Split(rest, sep);
  }

  /**
   Splitting on a one-character separator distributes over a concatenation
   around that character.
   */
  lemma {:induction false} SplitAround(a: string, c: char, b: string)
    ensures Split(a + [c] + b, [c]) == Split(a, [c]) + Split(b, [c])
    decreases |a|
  {
    var s := a + [c] + b;
    assert s == a + ([c] + b);
    var found := IndexOf(a, [c], 0);
    if found.Some? {
      var i := found.value;
      assert OccursAt(a, [c], i);
      FirstInPrefix(a, [c] + b, c, i);
      var a' := a[i + 1..];
      assert s[..i] == a[..i];
      assert s[i + 1..] == a' + [c] + b;
      calc {
        Split(s, [c]);
        { SplitFirst(s, [c], i); }
        [a[..i]] + Split(a' + [c] + b, [c]);
        { SplitAround(a', c, b); }
        [a[..i]] + (Split(a', [c]) + Split(b, [c]));
        ([a[..i]] + Split(a', [c])) + Split(b, [c]);
        { SplitFirst(a, [c], i); }
        Split(a, [c]) + Split(b, [c]);
      }
    } else {
      FirstInPrefix(a, [c] + b, c, |a|);
      SplitSingle(a, [c]);
      assert s[..|a|] == a;
      assert s[|a| + 1..] == b;
      SplitFirst(s, [c], |a|);
    }
  }

  /**
   The first occurrence of a one-character pattern in `a + t` is where `a`'s
   first occurrence is, or where `t` starts when `a` has none and `t` starts
   with the character.
   */
  lemma FirstInPrefix(a: string, t: string, c: char, i: nat)
    requires i <= |a|
    requires forall j: nat :: j < i ==> !OccursAt(a, [c], j)
    requires if i < |a| then a[i] == c else t != [] && t[0] == c
    ensures IndexOf(a + t, [c], 0) == Some(i)
  {
    var s := a + t;
    forall j: nat | j < i ensures !OccursAt(s, [c], j) {
      assert !OccursAt(a, [c], j);
      assert s[j..j + 1] == a[j..j + 1];
    }
    assert s[i..i + 1] == [c];
    IndexOfFirst(s, [c], i);
  }

  /** One step of a split: the piece before the first separator, then the split of the rest. */
  lemma SplitFirst(s: string, sep: string, i: nat)
    requires sep != [] && IndexOf(s, sep, 0) == Some(i)
    ensures Split(s, sep) == [s[..i]] + Split(s[i + |sep|..], sep)
  {
  }

  /** Splitting undoes a join on a one-character separator that no piece contains. */
  lemma {:induction false} SplitJoin(parts: seq<string>, c: char)
    requires |parts| >= 1
    requires forall k :: 0 <= k < |parts| ==> c !in parts[k]
    ensures Split(Join(parts, [c]), [c]) == parts
    decreases |parts|
  {
    AbsentChar(parts[0], [c], 0);
    SplitSingle(parts[0], [c]);
    if |parts| > 1 {
      SplitJoin(parts[1..], c);
      SplitAround(parts[0], c, Join(parts[1..], [c]));
      assert [parts[0]] + parts[1..] == parts;
    }
  }

  /** Two pieces without the one-character separator split back into those two pieces. */
  lemma SplitPair(a: string, c: char, b: string)
    requires c !in a && c !in b
    ensures Split(a + [c] + b, [c]) == [a, b]
  {
    SplitAround(a, c, b);
    AbsentChar(a, [c], 0);
    AbsentChar(b, [c], 0);
    SplitSingle(a, [c]);
    SplitSingle(b, [c]);
  }

  /**
   When the first character of `sep` does not occur in `a`, the first piece
   of splitting `a + sep + b` is `a`.
   */
  lemma SplitAfterFirst(a: string, sep: string, b: string)
    requires sep != [] && sep[0] !in a
    ensures Split(a + sep + b, sep) == [a] + Split(b, sep)
  {
    var s := a + sep + b;
    assert s[|a|..|a| + |sep|] == sep;
    forall j: nat | j < |a| ensures !OccursAt(s, sep, j) {
      assert s[j] == a[j];
      if j + |sep| <= |s| {
        assert s[j..j + |sep|][0] == s[j];
      }
    }
    IndexOfFirst(s, sep, |a|);
    SplitFirst(s, sep, |a|);
    assert s[..|a|] == a;
    assert s[|a| + |sep|..] == b;
  }

  /** A character of a join is a character of the separator or of one of the pieces. */
  lemma {:induction false} JoinChars(parts: seq<string>, sep: string, ch: char)
    requires |parts| >= 1
    requires ch !in sep && forall k :: 0 <= k < |parts| ==> ch !in parts[k]
    ensures ch !in Join(parts, sep)
    decreases |parts|
  {
    if |parts| > 1 {
      JoinChars(parts[1..], sep, ch);
    }
  }

  /** The white-space and line-terminator characters that `trim` removes. */
  predicate IsWhitespace(ch: char)
  {
    ch == '\t' || ch == '\n' || ch == '\U{000B}' || ch == '\U{000C}' || ch == '\r' ||
    ch == ' ' || ch == '\U{00A0}' || ch == '\U{1680}' ||
    ('\U{2000}' <= ch <= '\U{200A}') ||
    ch == '\U{2028}' || ch == '\U{2029}' || ch == '\U{202F}' || ch == '\U{205F}' ||
    ch == '\U{3000}' || ch == '\U{FEFF}'
  }

  /** Every character of `s` is white space. */
  predicate AllWhitespace(s: string)
  {
    forall k :: 0 <= k < |s| ==> IsWhitespace(s[k])
  }

  /** Removes leading white space. */
  function TrimStart(s: string): string
  {
    if s != [] && IsWhitespace(s[0]) then TrimStart(s[1..]) else s
  }

  /** Removes trailing white space. */
  function TrimEnd(s: string): string
  {
    if s != [] && IsWhitespace(s[|s| - 1]) then TrimEnd(s[..|s| - 1]) else s
  }

  /** `s.trim()`. */
  function Trim(s: string): string
  {
    TrimEnd(TrimStart(s))
  }

  /** `TrimStart` cuts off a prefix of white space and leaves a string that does not start with it. */
  lemma {:induction false} TrimStartCuts(s: string)
    ensures |TrimStart(s)| <= |s|
    ensures s == s[..|s| - |TrimStart(s)|] + TrimStart(s)
    ensures AllWhitespace(s[..|s| - |TrimStart(s)|])
    ensures TrimStart(s) != [] ==> !IsWhitespace(TrimStart(s)[0])
  {
    if s != [] && IsWhitespace(s[0]) {
      var t := s[1..];
      TrimStartCuts(t);
      var r := TrimStart(t);
      assert TrimStart(s) == r;
      var lead := t[..|t| - |r|];
      assert s[..|s| - |r|] == [s[0]] + lead;
      assert AllWhitespace([s[0]] + lead);
      assert s == [s[0]] + lead + r;
    }
  }

  /** `TrimEnd` cuts off a suffix of white space and leaves a string that does not end with it. */
  lemma {:induction false} TrimEndCuts(s: string)
    ensures |TrimEnd(s)| <= |s|
    ensures s == TrimEnd(s) + s[|TrimEnd(s)|..]
    ensures AllWhitespace(s[|TrimEnd(s)|..])
    ensures TrimEnd(s) != [] ==> !IsWhitespace(TrimEnd(s)[|TrimEnd(s)| - 1])
    ensures TrimEnd(s) != [] ==> TrimEnd(s)[0] == s[0]
  {
    if s != [] && IsWhitespace(s[|s| - 1]) {
      var r := TrimEnd(s[..|s| - 1]);
      TrimEndCuts(s[..|s| - 1]);
      assert s[|r|..] == s[..|s| - 1][|r|..] + [s[|s| - 1]];
    }
  }

  /**
   `trim` removes exactly the white space at both ends: `s` is some white
   space, then the result, then some more white space.
   */
  lemma TrimSlice(s: string)
    ensures exists lead: string, trail: string ::
      s == lead + Trim(s) + trail && AllWhitespace(lead) && AllWhitespace(trail)
  {
    var t := TrimStart(s);
    TrimStartCuts(s);
    TrimEndCuts(t);
    var r := TrimEnd(t);
    var lead, trail := s[..|s| - |t|], t[|r|..];
    assert s == lead + r + trail;
  }

  /** What `trim` leaves neither starts nor ends with white space. */
  lemma TrimEnds(s: string)
    ensures Trim(s) != [] ==> !IsWhitespace(Trim(s)[0]) && !IsWhitespace(Trim(s)[|Trim(s)| - 1])
  {
    TrimStartCuts(s);
    TrimEndCuts(TrimStart(s));
  }

  /** A string with no white space at either end is its own trim. */
  lemma TrimNoEnds(s: string)
    requires s != [] ==> !IsWhitespace(s[0]) && !IsWhitespace(s[|s| - 1])
    ensures Trim(s) == s
  {
  }
}
