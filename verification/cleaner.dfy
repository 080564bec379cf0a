/** The cell cleaner (`limpiar_dato`): delete every ASCII control character,
    then strip the whitespace at both ends.  Every call in the converter
    passes a string, so only the string branch is modelled. */
module Cleaner {
  import opened TextOps

  /** The character class `[\x00-\x1F\x7F]` of the substitution. */
  predicate IsControl(c: char)
  {
    c as int <= 0x1F || c as int == 0x7F
  }

  predicate NoControl(s: string)
  {
    forall c :: c in s ==> !IsControl(c)
  }

  /** The regular-expression substitution that deletes every control
      character.  RemoveControlFilters, RemoveControlAppend and
      RemoveControlKeepsClean say what it keeps. */
  function RemoveControl(s: string): (r: string)
    ensures |r| <= |s|
  {
    if s == [] then []
    else (if IsControl(s[0]) then [] else [s[0]]) + RemoveControl(s[1..])
  }

  /** No control character is left, and nothing is added. */
  lemma {:induction false} RemoveControlFilters(s: string)
    ensures NoControl(RemoveControl(s))
    ensures forall c :: c in RemoveControl(s) ==> c in s
  {
    if s != [] {
      RemoveControlFilters(s[1..]);
    }
  }

  /** The deletion works character by character, so it keeps the order of
      what it keeps. */
  lemma {:induction false} RemoveControlAppend(a: string, b: string)
    ensures RemoveControl(a + b) == RemoveControl(a) + RemoveControl(b)
  {
    if a != [] {
      assert (a + b)[1..] == a[1..] + b;
      RemoveControlAppend(a[1..], b);
      var head := if IsControl(a[0]) then [] else [a[0]];
      assert RemoveControl(a + b) == head + RemoveControl(a[1..] + b);
      assert RemoveControl(a) == head + RemoveControl(a[1..]);
    } else {
      assert a + b == b;
    }
  }

  /** A string without control characters is left as it is. */
  lemma {:induction false} RemoveControlKeepsClean(s: string)
    requires NoControl(s)
    ensures RemoveControl(s) == s
  {
    if s != [] {
      RemoveControlKeepsClean(s[1..]);
    }
  }

  /** `limpiar_dato` on a string.  The result holds no control character,
      has no whitespace at either end and is never longer than the input. */
  function Clean(s: string): (r: string)
    ensures NoControl(r)
    ensures NoEdgeWhitespace(r)
    ensures |r| <= |s|
  {
    var t := RemoveControl(s);
    RemoveControlFilters(s);
    StripSlice(t);
    TrimMembers(Strip(t), t);
    Strip(t)
  }

  /** The cleaned value is one contiguous piece of the input with its
      control characters deleted: only whitespace at the two ends goes. */
  lemma CleanIsSlice(s: string)
    ensures IsTrimOf(Clean(s), RemoveControl(s))
  {
    StripSlice(RemoveControl(s));
  }

  /** Cleaning is idempotent. */
  lemma CleanIdempotent(s: string)
    ensures Clean(Clean(s)) == Clean(s)
  {
    var r := Clean(s);
    RemoveControlKeepsClean(r);
    assert [] + r + [] == r;
    StripUnique([], r, []);
  }

  /** Clean leaves a string unchanged exactly when it holds no control
      character and no whitespace at its ends. */
  lemma CleanFixedPoints(s: string)
    ensures Clean(s) == s <==> NoControl(s) && NoEdgeWhitespace(s)
  {
    if NoControl(s) && NoEdgeWhitespace(s) {
      RemoveControlKeepsClean(s);
      assert [] + s + [] == s;
      StripUnique([], s, []);
    }
  }

  /** A character the input does not contain is not in the cleaned value
      either: cleaning only deletes. */
  lemma CleanAddsNothing(s: string, c: char)
    requires c !in s
    ensures c !in Clean(s)
  {
    RemoveControlFilters(s);
    CleanIsSlice(s);
    TrimMembers(Clean(s), RemoveControl(s));
  }

  lemma RemoveControlExample()
    ensures RemoveControl("  caf\U{7}\U{E9}  ") == "  caf" + "\U{E9}  "
  {
    var head, tail := "  caf", "\U{E9}  ";
    assert "  caf\U{7}\U{E9}  " == head + ("\U{7}" + tail);
    RemoveControlAppend(head, "\U{7}" + tail);
    RemoveControlAppend("\U{7}", tail);
    RemoveControlKeepsClean(head);
    RemoveControlKeepsClean(tail);
    assert [] + tail == tail;
  }

  /** An example cell: the bell character is deleted and the surrounding
      blanks are stripped. */
  lemma CleanExample()
    ensures Clean("  caf\U{7}\U{E9}  ") == "caf\U{E9}"
  {
    RemoveControlExample();
    var blanks, word := "  ", "caf\U{E9}";
    assert "  caf" + "\U{E9}  " == blanks + word + blanks;
    StripUnique(blanks, word, blanks);
  }
}
