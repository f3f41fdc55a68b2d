/** The string normalisation the application applies to form input and to
    answers: Python's `str.strip()` and `str.upper()`. */
module Text {

  /** The characters `str.isspace()` accepts, which `str.strip()` removes. */
  predicate IsSpace(c: char)
  {
    || '\t' <= c <= '\r'                   // tab, line feed, vertical tab, form feed, carriage return
    || '\U{001C}' <= c <= ' '               // file, group, record and unit separators, space
    || c == '\U{0085}' || c == '\U{00A0}' || c == '\U{1680}'
    || '\U{2000}' <= c <= '\U{200A}'
    || c == '\U{2028}' || c == '\U{2029}' || c == '\U{202F}' || c == '\U{205F}' || c == '\U{3000}'
  }

  /** Every character is whitespace (true of ""). */
  predicate AllSpace(s: string)
  {
    forall i :: 0 <= i < |s| ==> IsSpace(s[i])
  }

  predicate IsLower(c: char)
  {
    'a' <= c <= 'z'
  }

  function UpperChar(c: char): (u: char)
    ensures !IsLower(u)
    ensures !IsLower(c) ==> u == c
  {
    if IsLower(c) then (c as int - 32) as char else c
  }

  /** `s.lstrip()`: drops the leading whitespace (see LStripSpec). */
  function LStrip(s: string): (r: string)
    ensures |r| <= |s|
  {
    if s != [] && IsSpace(s[0]) then LStrip(s[1..]) else s
  }

  /** `s.rstrip()`: drops the trailing whitespace (see RStripSpec). */
  function RStrip(s: string): (r: string)
    ensures |r| <= |s|
  {
    if s != [] && IsSpace(s[|s| - 1]) then RStrip(s[..|s| - 1]) else s
  }

  /** `s.strip()` (see StripSpec). */
  function Strip(s: string): (r: string)
    ensures |r| <= |s|
  {
    RStrip(LStrip(s))
  }

  /** `s.upper()` on ASCII letters. */
  function Upper(s: string): (r: string)
    ensures |r| == |s|
  {
    seq(|s|, i requires 0 <= i < |s| => UpperChar(s[i]))
  }

  /** `s.strip().upper()`, applied to every answer and every answer key entry. */
  function Normalize(s: string): (r: string)
    ensures |r| <= |s|
  {
    Upper(Strip(s))
  }

  /** LStrip removes a prefix made only of whitespace, and the longest one. */
  lemma {:induction false} LStripSpec(s: string)
    ensures var r := LStrip(s);
      && r == s[|s| - |r|..]
      && (forall i :: 0 <= i < |s| - |r| ==> IsSpace(s[i]))
      && (r != [] ==> !IsSpace(r[0]))
  {
    if s != [] && IsSpace(s[0]) {
      LStripSpec(s[1..]);
      var r := LStrip(s);
      forall i | 0 <= i < |s| - |r| ensures IsSpace(s[i]) {
        if i > 0 {
          assert s[i] == s[1..][i - 1];
        }
      }
    }
  }

  /** RStrip removes a suffix made only of whitespace, and the longest one. */
  lemma {:induction false} RStripSpec(s: string)
    ensures var r := RStrip(s);
      && r == s[..|r|]
      && (forall i :: |r| <= i < |s| ==> IsSpace(s[i]))
      && (r != [] ==> !IsSpace(r[|r| - 1]))
  {
    if s != [] && IsSpace(s[|s| - 1]) {
      var t := s[..|s| - 1];
      RStripSpec(t);
      var r := RStrip(s);
      assert r == RStrip(t);
      forall i | |r| <= i < |s| ensures IsSpace(s[i]) {
        if i < |s| - 1 {
          assert s[i] == t[i];
        }
      }
    }
  }

  /** `s.strip()` is `s` with a whitespace prefix and a whitespace suffix
      cut off; it is empty exactly when `s` is all whitespace, and otherwise
      begins and ends with a non-space character. */
  lemma StripSpec(s: string)
    ensures var r := Strip(s);
      && (exists a, b :: 0 <= a <= b <= |s| && r == s[a..b] && AllSpace(s[..a]) && AllSpace(s[b..]))
      && (r == [] <==> AllSpace(s))
      && (r != [] ==> !IsSpace(r[0]) && !IsSpace(r[|r| - 1]))
  {
    var l := LStrip(s);
    var r := RStrip(l);
    LStripSpec(s);
    RStripSpec(l);
    var k := |s| - |l|;
    assert r == s[k..k + |r|];
    assert AllSpace(s[..k]);
    var tail := s[k + |r|..];
    assert AllSpace(tail) by {
      forall i | 0 <= i < |tail| ensures IsSpace(tail[i]) {
        assert tail[i] == l[|r| + i];
      }
    }
    if r != [] {
      assert r[0] == l[0];
    }
    assert r == [] ==> AllSpace(s);
    assert AllSpace(s) ==> r == [] by {
      if r != [] {
        assert s[k] == r[0];
      }
    }
  }

  /** `upper()` turns each lower-case ASCII letter into its capital (32 code
      points lower), leaves no lower-case letter, changes nothing else, and
      keeps every character's whitespace class. */
  lemma UpperSpec(s: string)
    ensures var r := Upper(s);
      && (forall i :: 0 <= i < |s| ==> !IsLower(r[i]) && IsSpace(r[i]) == IsSpace(s[i]))
      && (forall i :: 0 <= i < |s| && IsLower(s[i]) ==> r[i] as int == s[i] as int - 32)
      && (forall i :: 0 <= i < |s| && !IsLower(s[i]) ==> r[i] == s[i])
  {
    forall i | 0 <= i < |s| && IsLower(s[i])
      ensures IsSpace(Upper(s)[i]) == IsSpace(s[i])
    {
      assert 'A' <= Upper(s)[i] <= 'Z';
    }
  }

  lemma StripIdempotent(s: string)
    ensures Strip(Strip(s)) == Strip(s)
  {
    StripSpec(s);
    Unstrippable(Strip(s));
  }

  /** A string with no whitespace at either end is left as it is. */
  lemma Unstrippable(t: string)
    requires t != [] ==> !IsSpace(t[0]) && !IsSpace(t[|t| - 1])
    ensures Strip(t) == t
  {
    assert LStrip(t) == t;
    assert RStrip(t) == t;
  }

  /** Normalising twice is normalising once: a stored answer compares
      equal to itself when normalised again. */
  lemma NormalizeIdempotent(s: string)
    ensures Normalize(Normalize(s)) == Normalize(s)
  {
    var t := Strip(s);
    var u := Upper(t);
    StripSpec(s);
    UpperSpec(t);
    Unstrippable(u);
    UpperSpec(u);
    assert Upper(u) == u;
  }

  /** Leading whitespace is dropped whatever follows it. */
  lemma {:induction false} LStripSpaces(pre: string, x: string)
    requires AllSpace(pre)
    ensures LStrip(pre + x) == LStrip(x)
  {
    if pre != [] {
      assert (pre + x)[0] == pre[0];
      assert (pre + x)[1..] == pre[1..] + x;
      LStripSpaces(pre[1..], x);
    } else {
      assert pre + x == x;
    }
  }

  /** Trailing whitespace is dropped whatever precedes it. */
  lemma {:induction false} RStripSpaces(x: string, post: string)
    requires AllSpace(post)
    ensures RStrip(x + post) == RStrip(x)
  {
    if post != [] {
      var n := |post| - 1;
      assert (x + post)[|x + post| - 1] == post[n];
      assert (x + post)[..|x + post| - 1] == x + post[..n];
      RStripSpaces(x, post[..n]);
    } else {
      assert x + post == x;
    }
  }

  /** A character typed for a key character: the same one, or the
      lower-case form of a capital letter. */
  predicate SameUpToCase(typed: char, key: char)
  {
    typed == key || ('A' <= key <= 'Z' && typed as int == key as int + 32)
  }

  /** Whitespace padding around a string with no whitespace at its ends is
      exactly what `strip()` removes. */
  lemma StripPadded(pre: string, w: string, post: string)
    requires AllSpace(pre) && AllSpace(post)
    requires w != [] ==> !IsSpace(w[0]) && !IsSpace(w[|w| - 1])
    ensures Strip(pre + w + post) == w
  {
    assert pre + w + post == pre + (w + post);
    LStripSpaces(pre, w + post);
    if w == [] {
      assert w + post == post;
      StripSpec(post);
    } else {
      assert (w + post)[0] == w[0];
      assert LStrip(w + post) == w + post;
      RStripSpaces(w, post);
      assert RStrip(w) == w;
    }
  }

  /** Upper-casing a string that differs from an all-capital string only in
      letter case gives that string. */
  lemma UpperUpToCase(w: string, k: string)
    requires |w| == |k|
    requires forall i :: 0 <= i < |k| ==> !IsLower(k[i]) && SameUpToCase(w[i], k[i])
    ensures Upper(w) == k
  {
    forall i | 0 <= i < |w| ensures Upper(w)[i] == k[i] {
      assert Upper(w)[i] == UpperChar(w[i]);
    }
  }

  /** Comparison with a normalised key entry ignores ASCII case and
      surrounding whitespace: an answer that differs from the entry only in
      letter case, padded with any whitespace, normalises to the entry. */
  lemma AnswerMatchIgnoresCaseAndSpace(raw: string, pre: string, w: string, post: string)
    requires AllSpace(pre) && AllSpace(post)
    requires |w| == |Normalize(raw)|
    requires forall i :: 0 <= i < |w| ==> SameUpToCase(w[i], Normalize(raw)[i])
    ensures Normalize(pre + w + post) == Normalize(raw)
  {
    var t := Strip(raw);
    var k := Upper(t);
    StripSpec(raw);
    UpperSpec(t);
    if w != [] {
      var n := |w| - 1;
      assert SameUpToCase(w[0], k[0]) && SameUpToCase(w[n], k[n]);
      assert !IsSpace(k[0]) && !IsSpace(k[n]);
    }
    StripPadded(pre, w, post);
    UpperUpToCase(w, k);
  }
}
