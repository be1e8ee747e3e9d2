/**
 * The string operations the application relies on: Python's `str.strip()`
 * and `str.lower()`, Python truthiness of an optional string, and the SQL
 * pattern `column ILIKE '%term%'` as SQLite evaluates it (ASCII case folding).
 */
module Text {
  import opened Wrappers

  /** Python's `str.isspace()` for one character: what `str.strip()` removes. */
  predicate IsSpace(c: char)
  {
    || ('\t' <= c <= '\r')
    || ('\U{1C}' <= c <= '\U{1F}')
    || c == ' ' || c == '\U{85}' || c == '\U{A0}' || c == '\U{1680}'
    || ('\U{2000}' <= c <= '\U{200A}')
    || c == '\U{2028}' || c == '\U{2029}' || c == '\U{202F}' || c == '\U{205F}' || c == '\U{3000}'
  }

  /** True when every character of `s` is white space (also for ""). */
  predicate Blank(s: string)
  {
    forall i :: 0 <= i < |s| ==> IsSpace(s[i])
  }

  /** `str.lstrip()`: drops leading white space. */
  function TrimLeft(s: string): (r: string)
    ensures |r| <= |s| && r == s[|s| - |r|..]
    ensures r == [] || !IsSpace(r[0])
    ensures forall i :: 0 <= i < |s| - |r| ==> IsSpace(s[i])
  {
    if s != [] && IsSpace(s[0]) then TrimLeft(s[1..]) else s
  }

  /** `str.rstrip()`: drops trailing white space. */
  function TrimRight(s: string): (r: string)
    ensures |r| <= |s| && r == s[..|r|]
    ensures r == [] || !IsSpace(r[|r| - 1])
    ensures forall i :: |r| <= i < |s| ==> IsSpace(s[i])
  {
    if s != [] && IsSpace(s[|s| - 1]) then TrimRight(s[..|s| - 1]) else s
  }

  /**
   * `str.strip()`. The result is a contiguous piece of `s` that neither starts
   * nor ends with white space, and it is empty exactly when `s` is blank.
   */
  function Strip(s: string): (r: string)
    ensures |r| <= |s|
    ensures r == [] || (!IsSpace(r[0]) && !IsSpace(r[|r| - 1]))
    ensures r == [] <==> Blank(s)
  {
    var l := TrimLeft(s);
    var r := TrimRight(l);
    BlankWhenTrimmedAway(s);
    r
  }

  /** When both trims together remove everything, every character was white space. */
  lemma BlankWhenTrimmedAway(s: string)
    ensures TrimRight(TrimLeft(s)) == [] ==> Blank(s)
  {
    var l := TrimLeft(s);
    if TrimRight(l) == [] {
      assert l == [];
    }
  }

  /** Stripping twice is stripping once. */
  lemma StripIdempotent(s: string)
    ensures Strip(Strip(s)) == Strip(s)
  {
    var r := Strip(s);
    assert TrimLeft(r) == r;
    assert TrimRight(r) == r;
  }

  /** ASCII `lower()` of one character. */
  function LowerChar(c: char): char
  {
    if 'A' <= c <= 'Z' then (c as int + 32) as char else c
  }

  /** Lower-cases the ASCII letters of `s`, character by character. */
  function Lower(s: string): (r: string)
    ensures |r| == |s|
    ensures forall i :: 0 <= i < |s| ==> r[i] == LowerChar(s[i])
  {
    if s == [] then [] else [LowerChar(s[0])] + Lower(s[1..])
  }

  /** Lower-casing twice is lower-casing once. */
  lemma LowerIdempotent(s: string)
    ensures Lower(Lower(s)) == Lower(s)
  {
    assert forall i :: 0 <= i < |s| ==> Lower(Lower(s))[i] == Lower(s)[i];
  }

  /** Lower-casing a character does not change whether it is white space. */
  lemma LowerCharSpace(c: char)
    ensures IsSpace(LowerChar(c)) == IsSpace(c)
  {
  }

  /** Lower-casing neither creates nor removes white space, so it commutes with `lstrip`. */
  lemma {:induction false} TrimLeftLower(s: string)
    ensures TrimLeft(Lower(s)) == Lower(TrimLeft(s))
    decreases |s|
  {
    if s != [] {
      var t := Lower(s);
      assert t[0] == LowerChar(s[0]);
      LowerCharSpace(s[0]);
      if IsSpace(s[0]) {
        assert t[1..] == Lower(s[1..]);
        TrimLeftLower(s[1..]);
      } else {
        assert TrimLeft(s) == s;
        assert TrimLeft(t) == t;
      }
    }
  }

  /** Lower-casing commutes with `rstrip`. */
  lemma {:induction false} TrimRightLower(s: string)
    ensures TrimRight(Lower(s)) == Lower(TrimRight(s))
    decreases |s|
  {
    if s != [] {
      var t := Lower(s);
      assert t[|s| - 1] == LowerChar(s[|s| - 1]);
      LowerCharSpace(s[|s| - 1]);
      if IsSpace(s[|s| - 1]) {
        assert t[..|s| - 1] == Lower(s[..|s| - 1]);
        TrimRightLower(s[..|s| - 1]);
      } else {
        assert TrimRight(s) == s;
        assert TrimRight(t) == t;
      }
    }
  }

  /** Lower-casing commutes with `strip`. */
  lemma StripLower(s: string)
    ensures Strip(Lower(s)) == Lower(Strip(s))
  {
    TrimLeftLower(s);
    TrimRightLower(TrimLeft(s));
  }

  /** Leading white space is what `lstrip` removes, however much of it there is. */
  lemma {:induction false} TrimLeftBlankPrefix(w: string, t: string)
    requires Blank(w)
    ensures TrimLeft(w + t) == TrimLeft(t)
    decreases |w|
  {
    if w != [] {
      assert (w + t)[0] == w[0];
      assert (w + t)[1..] == w[1..] + t;
      TrimLeftBlankPrefix(w[1..], t);
    } else {
      assert w + t == t;
    }
  }

  /** Trailing white space is what `rstrip` removes, however much of it there is. */
  lemma {:induction false} TrimRightBlankSuffix(t: string, w: string)
    requires Blank(w)
    ensures TrimRight(t + w) == TrimRight(t)
    decreases |w|
  {
    if w != [] {
      assert (t + w)[|t + w| - 1] == w[|w| - 1];
      assert (t + w)[..|t + w| - 1] == t + w[..|w| - 1];
      TrimRightBlankSuffix(t, w[..|w| - 1]);
    } else {
      assert t + w == t;
    }
  }

  /** `lstrip` of a string that is not blank never reaches what follows it. */
  lemma {:induction false} TrimLeftAppend(s: string, w: string)
    requires !Blank(s)
    ensures TrimLeft(s + w) == TrimLeft(s) + w
    decreases |s|
  {
    assert (s + w)[0] == s[0];
    if IsSpace(s[0]) {
      assert (s + w)[1..] == s[1..] + w;
      assert !Blank(s[1..]) by {
        var i :| 0 <= i < |s| && !IsSpace(s[i]);
        assert s[1..][i - 1] == s[i];
      }
      TrimLeftAppend(s[1..], w);
    }
  }

  /** `strip` removes any white space added around a string. */
  lemma StripIgnoresPadding(w1: string, s: string, w2: string)
    requires Blank(w1) && Blank(w2)
    ensures Strip(w1 + s + w2) == Strip(s)
  {
    if Blank(s) {
      var p := w1 + s + w2;
      forall i | 0 <= i < |p| ensures IsSpace(p[i]) {
        if i < |w1| {
          assert p[i] == w1[i];
        } else if i < |w1| + |s| {
          assert p[i] == s[i - |w1|];
        } else {
          assert p[i] == w2[i - |w1| - |s|];
        }
      }
    } else {
      assert w1 + s + w2 == w1 + (s + w2);
      TrimLeftBlankPrefix(w1, s + w2);
      TrimLeftAppend(s, w2);
      TrimRightBlankSuffix(TrimLeft(s), w2);
    }
  }

  /** `needle` occurs in `hay` as a contiguous piece. */
  predicate IsSubstring(needle: string, hay: string)
    decreases |hay|
  {
    needle <= hay || (hay != [] && IsSubstring(needle, hay[1..]))
  }

  /** `needle` sits in `hay` starting at index `i`. */
  predicate OccursAt(needle: string, hay: string, i: int)
  {
    0 <= i <= |hay| - |needle| && hay[i..i + |needle|] == needle
  }

  /** `IsSubstring` holds exactly when `needle` sits at some position of `hay`. */
  lemma SubstringAt(needle: string, hay: string)
    ensures IsSubstring(needle, hay) <==> exists i :: OccursAt(needle, hay, i)
  {
    if IsSubstring(needle, hay) {
      SubstringHasPosition(needle, hay);
    }
    if exists i :: OccursAt(needle, hay, i) {
      var i :| OccursAt(needle, hay, i);
      PositionGivesSubstring(needle, hay, i);
    }
  }

  lemma {:induction false} SubstringHasPosition(needle: string, hay: string)
    requires IsSubstring(needle, hay)
    ensures exists i :: OccursAt(needle, hay, i)
    decreases |hay|
  {
    if needle <= hay {
      assert OccursAt(needle, hay, 0);
    } else {
      SubstringHasPosition(needle, hay[1..]);
      var i :| OccursAt(needle, hay[1..], i);
      assert hay[i + 1..i + 1 + |needle|] == hay[1..][i..i + |needle|];
      assert OccursAt(needle, hay, i + 1);
    }
  }

  lemma {:induction false} PositionGivesSubstring(needle: string, hay: string, i: int)
    requires OccursAt(needle, hay, i)
    ensures IsSubstring(needle, hay)
    decreases i
  {
    if i == 0 {
      assert hay[..|needle|] == needle;
    } else {
      assert hay[1..][i - 1..i - 1 + |needle|] == hay[i..i + |needle|];
      PositionGivesSubstring(needle, hay[1..], i - 1);
    }
  }

  /**
   * `column ILIKE '%term%'` on SQLite: `term` occurs in `column` when both are
   * lower-cased (SQLite's lower() folds ASCII letters only).
   */
  predicate ContainsFold(column: string, term: string)
  {
    IsSubstring(Lower(term), Lower(column))
  }

  /** An ILIKE match does not depend on the case of the term. */
  lemma ContainsFoldIgnoresCase(column: string, term: string)
    ensures ContainsFold(column, Lower(term)) == ContainsFold(column, term)
  {
    LowerIdempotent(term);
  }

  /** Python truthiness of an optional string: not `None` and not "". */
  predicate Truthy(o: Option<string>)
  {
    o.Some? && o.value != ""
  }
}
