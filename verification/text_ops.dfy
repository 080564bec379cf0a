/** The three built-in string operations the converter relies on, with the
    meaning Python gives them: `str.strip()` with no argument, `str.split('|')`
    and `str.replace('\n', '-|-')`.  Each is paired with a reference
    characterisation (strip) or an inverse (split/join) and the lemmas that
    connect the two. */
module TextOps {

  /** The field delimiter of the input format. */
  const Delimiter: char := '|'

  /** What a line break becomes before a line is split into fields. */
  const LineBreakMarker: string := "-|-"

  /** Python's `str.isspace()`: the characters `str.strip()` removes. */
  predicate IsWhitespace(c: char)
  {
    var n := c as int;
    (0x09 <= n <= 0x0D) || (0x1C <= n <= 0x20) || n == 0x85 || n == 0xA0 || n == 0x1680
    || (0x2000 <= n <= 0x200A) || n == 0x2028 || n == 0x2029 || n == 0x202F || n == 0x205F
    || n == 0x3000
  }

  predicate AllWhitespace(s: string)
  {
    forall k :: 0 <= k < |s| ==> IsWhitespace(s[k])
  }

  /** Neither the first nor the last character is whitespace. */
  predicate NoEdgeWhitespace(s: string)
  {
    s == [] || (!IsWhitespace(s[0]) && !IsWhitespace(s[|s| - 1]))
  }

  /** `r` is the contiguous piece of `s` left after removing some
      whitespace at its start and some at its end. */
  predicate IsTrimOf(r: string, s: string)
  {
    exists i :: 0 <= i <= |s| - |r| && r == s[i..i + |r|]
                && AllWhitespace(s[..i]) && AllWhitespace(s[i + |r|..])
  }

  /** A trimmed string holds only characters of the string it is cut from. */
  lemma TrimMembers(r: string, s: string)
    requires IsTrimOf(r, s)
    ensures forall c :: c in r ==> c in s
  {
    var i :| 0 <= i <= |s| - |r| && r == s[i..i + |r|]
             && AllWhitespace(s[..i]) && AllWhitespace(s[i + |r|..]);
    assert forall k :: 0 <= k < |r| ==> r[k] == s[i + k];
  }

  /** Drops the leading whitespace: what is left is a suffix of `s` that
      does not start with whitespace; TrimLeftDrops says what went. */
  function TrimLeft(s: string): (r: string)
    ensures |r| <= |s|
    ensures r == [] || !IsWhitespace(r[0])
  {
    if |s| > 0 && IsWhitespace(s[0]) then TrimLeft(s[1..]) else s
  }

  /** TrimLeft removes whitespace only. */
  lemma {:induction false} TrimLeftDrops(s: string)
    ensures TrimLeft(s) == s[|s| - |TrimLeft(s)|..]
    ensures AllWhitespace(s[..|s| - |TrimLeft(s)|])
  {
    if |s| > 0 && IsWhitespace(s[0]) {
      var r := TrimLeft(s[1..]);
      TrimLeftDrops(s[1..]);
      assert s[..|s| - |r|] == [s[0]] + s[1..][..|s| - 1 - |r|];
    }
  }

  /** Drops the trailing whitespace: what is left is a prefix of `s` that
      does not end with whitespace; TrimRightDrops says what went. */
  function TrimRight(s: string): (r: string)
    ensures |r| <= |s|
    ensures r == [] || !IsWhitespace(r[|r| - 1])
  {
    if |s| > 0 && IsWhitespace(s[|s| - 1]) then TrimRight(s[..|s| - 1]) else s
  }

  /** TrimRight removes whitespace only. */
  lemma {:induction false} TrimRightDrops(s: string)
    ensures TrimRight(s) == s[..|TrimRight(s)|]
    ensures AllWhitespace(s[|TrimRight(s)|..])
  {
    if |s| > 0 && IsWhitespace(s[|s| - 1]) {
      var r := TrimRight(s[..|s| - 1]);
      TrimRightDrops(s[..|s| - 1]);
      assert s[|r|..] == s[..|s| - 1][|r|..] + [s[|s| - 1]];
    }
  }

  /** `str.strip()`: no whitespace is left at either end.  StripSlice says
      what is removed, StripUnique that nothing else would do. */
  function Strip(s: string): (r: string)
    ensures |r| <= |s|
    ensures NoEdgeWhitespace(r)
  {
    TrimRightDrops(TrimLeft(s));
    TrimRight(TrimLeft(s))
  }

  /** Strip removes only whitespace, and only at the two ends: the result is
      the slice of `s` between a whitespace prefix and a whitespace suffix. */
  lemma StripSlice(s: string)
    ensures IsTrimOf(Strip(s), s)
  {
    var t := TrimLeft(s);
    var r := TrimRight(t);
    var i := |s| - |t|;
    TrimLeftDrops(s);
    TrimRightDrops(t);
    assert Strip(s) == r;
    assert t == s[i..];
    assert r == s[i..i + |r|];
    assert s[i + |r|..] == t[|r|..];
    assert AllWhitespace(s[..i]) && AllWhitespace(s[i + |r|..]);
    assert 0 <= i <= i + |r| <= |s|;
  }

  lemma {:induction false} TrimLeftSkips(a: string, t: string)
    requires AllWhitespace(a)
    ensures TrimLeft(a + t) == TrimLeft(t)
  {
    if a != [] {
      assert (a + t)[1..] == a[1..] + t;
      TrimLeftSkips(a[1..], t);
    } else {
      assert a + t == t;
    }
  }

  lemma {:induction false} TrimRightSkips(t: string, b: string)
    requires AllWhitespace(b)
    ensures TrimRight(t + b) == TrimRight(t)
  {
    if b != [] {
      var b' := b[..|b| - 1];
      assert (t + b)[..|t + b| - 1] == t + b';
      TrimRightSkips(t, b');
    } else {
      assert t + b == t;
    }
  }

  /** Strip is determined by its contract: whenever `s` is some whitespace,
      then a string with no whitespace at its ends, then more whitespace,
      stripping `s` yields exactly that middle string. */
  lemma StripUnique(a: string, r: string, b: string)
    requires AllWhitespace(a) && AllWhitespace(b) && NoEdgeWhitespace(r)
    ensures Strip(a + r + b) == r
  {
    var s := a + r + b;
    if r == [] {
      StripSlice(s);
    } else {
      assert s == a + (r + b);
      TrimLeftSkips(a, r + b);
      assert TrimLeft(r + b) == r + b;
      TrimRightSkips(r, b);
    }
  }

  /** How many times `c` occurs in `s` (`s.count(c)`). */
  function Occurrences(s: string, c: char): (n: nat)
    ensures n <= |s|
  {
    if s == [] then 0 else (if s[0] == c then 1 else 0) + Occurrences(s[1..], c)
  }

  lemma {:induction false} OccurrencesAppend(a: string, b: string, c: char)
    ensures Occurrences(a + b, c) == Occurrences(a, c) + Occurrences(b, c)
  {
    if a != [] {
      assert (a + b)[1..] == a[1..] + b;
      OccurrencesAppend(a[1..], b, c);
    } else {
      assert a + b == b;
    }
  }

  /** `str.split('|')`: one piece more than there are delimiters, and no
      piece contains the delimiter. */
  function Split(s: string): (r: seq<string>)
    ensures |r| == Occurrences(s, Delimiter) + 1
    ensures forall k :: 0 <= k < |r| ==> Delimiter !in r[k]
  {
    if s == [] then [""]
    else
      var rest := Split(s[1..]);
      assert s == [s[0]] + s[1..];
      if s[0] == Delimiter then [""] + rest
      else [[s[0]] + rest[0]] + rest[1..]
  }

  /** `'|'.join(parts)`: the inverse of Split. */
  function Join(parts: seq<string>): string
  {
    if |parts| == 0 then ""
    else if |parts| == 1 then parts[0]
    else parts[0] + [Delimiter] + Join(parts[1..])
  }

  lemma {:induction false} JoinSplit(s: string)
    ensures Join(Split(s)) == s
  {
    if s != [] {
      var rest := Split(s[1..]);
      JoinSplit(s[1..]);
      if s[0] == Delimiter {
        assert Split(s) == [""] + rest;
      } else {
        var r := Split(s);
        assert r == [[s[0]] + rest[0]] + rest[1..];
        if |rest| == 1 {
          assert Join(r) == [s[0]] + rest[0];
        } else {
          assert r[1..] == rest[1..];
          assert Join(r) == [s[0]] + rest[0] + [Delimiter] + Join(rest[1..]);
        }
      }
    }
  }

  /** A leading character other than the delimiter joins the first piece. */
  lemma SplitCons(c: char, s: string)
    requires c != Delimiter
    ensures Split([c] + s) == [[c] + Split(s)[0]] + Split(s)[1..]
  {
    assert ([c] + s)[1..] == s;
  }

  /** A delimiter-free prefix joins the first piece. */
  lemma {:induction false} SplitPrefix(p: string, s: string)
    requires Delimiter !in p
    ensures Split(p + s) == [p + Split(s)[0]] + Split(s)[1..]
  {
    var r := Split(s);
    if p != [] {
      var q := p[1..];
      assert p + s == [p[0]] + (q + s);
      SplitPrefix(q, s);
      SplitCons(p[0], q + s);
      assert [p[0]] + (q + r[0]) == p + r[0];
    } else {
      assert p + s == s && p + r[0] == r[0];
      assert r == [r[0]] + r[1..];
    }
  }

  lemma {:induction false} SplitJoin(parts: seq<string>)
    requires |parts| >= 1
    requires forall k :: 0 <= k < |parts| ==> Delimiter !in parts[k]
    ensures Split(Join(parts)) == parts
  {
    if |parts| == 1 {
      SplitPrefix(parts[0], "");
      assert parts[0] + "" == parts[0];
    } else {
      var tail := Join(parts[1..]);
      SplitJoin(parts[1..]);
      assert Join(parts) == parts[0] + ([Delimiter] + tail);
      SplitPrefix(parts[0], [Delimiter] + tail);
      assert ([Delimiter] + tail)[1..] == tail;
      assert parts[0] + "" == parts[0];
      assert parts == [parts[0]] + parts[1..];
    }
  }

  /** A character that is neither the delimiter nor in any part is not in
      the joined string. */
  lemma {:induction false} JoinAvoids(parts: seq<string>, c: char)
    requires c != Delimiter
    requires forall k :: 0 <= k < |parts| ==> c !in parts[k]
    ensures c !in Join(parts)
  {
    if |parts| > 1 {
      JoinAvoids(parts[1..], c);
    }
  }

  /** Parts without whitespace at their ends join into a string without
      whitespace at its ends. */
  lemma {:induction false} JoinEdges(parts: seq<string>)
    requires forall k :: 0 <= k < |parts| ==> NoEdgeWhitespace(parts[k])
    ensures NoEdgeWhitespace(Join(parts))
  {
    if |parts| > 1 {
      JoinEdges(parts[1..]);
      var tail := Join(parts[1..]);
      var j := Join(parts);
      assert j == parts[0] + [Delimiter] + tail;
      assert j[0] == if parts[0] == [] then Delimiter else parts[0][0];
      assert j[|j| - 1] == if tail == [] then Delimiter else tail[|tail| - 1];
    }
  }

  /** A line written from parts without edge whitespace or line breaks has
      no line break inside and is its own stripped form, with or without a
      final line break. */
  lemma {:induction false} JoinedLine(parts: seq<string>)
    requires forall k :: 0 <= k < |parts| ==> NoEdgeWhitespace(parts[k]) && '\n' !in parts[k]
    ensures '\n' !in Join(parts)
    ensures Strip(Join(parts)) == Join(parts)
    ensures Strip(Join(parts) + "\n") == Join(parts)
  {
    JoinEdges(parts);
    JoinAvoids(parts, '\n');
    var line := Join(parts);
    assert [] + line + [] == line;
    StripUnique([], line, []);
    assert [] + line + "\n" == line + "\n";
    StripUnique([], line, "\n");
  }

  /** `str.replace('\n', '-|-')`: every line break becomes the marker, so
      each one adds one delimiter; a string without line breaks is
      unchanged. */
  function MarkLineBreaks(s: string): (r: string)
    ensures '\n' !in r
    ensures Occurrences(r, Delimiter) == Occurrences(s, Delimiter) + Occurrences(s, '\n')
    ensures '\n' !in s ==> r == s
  {
    if s == [] then []
    else
      var head := if s[0] == '\n' then LineBreakMarker else [s[0]];
      var rest := MarkLineBreaks(s[1..]);
      OccurrencesAppend(head, rest, Delimiter);
      assert s == [s[0]] + s[1..];
      head + rest
  }

  /** The replacement works character by character: it distributes over
      concatenation. */
  lemma {:induction false} MarkLineBreaksAppend(a: string, b: string)
    ensures MarkLineBreaks(a + b) == MarkLineBreaks(a) + MarkLineBreaks(b)
  {
    if a != [] {
      assert (a + b)[1..] == a[1..] + b;
      MarkLineBreaksAppend(a[1..], b);
      var head := if a[0] == '\n' then LineBreakMarker else [a[0]];
      assert MarkLineBreaks(a + b) == head + MarkLineBreaks(a[1..] + b);
      assert MarkLineBreaks(a) == head + MarkLineBreaks(a[1..]);
    } else {
      assert a + b == b;
    }
  }

  /** A line break becomes the marker; every other character stays. */
  lemma MarkLineBreaksChar(c: char)
    ensures MarkLineBreaks([c]) == if c == '\n' then LineBreakMarker else [c]
  {
    assert [c][1..] == [];
  }

  /** The first line break of a string is replaced by the marker in place:
      what precedes it is kept and what follows is replaced in turn. */
  lemma MarkLineBreaksAt(a: string, b: string)
    requires '\n' !in a
    ensures MarkLineBreaks(a + "\n" + b) == a + LineBreakMarker + MarkLineBreaks(b)
  {
    MarkLineBreaksAppend(a + "\n", b);
    MarkLineBreaksAppend(a, "\n");
    MarkLineBreaksChar('\n');
  }
}
