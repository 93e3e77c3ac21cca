/**
 Key normalisation of the Python job: `r[0].strip().upper()`, restricted to
 ASCII. `strip()` removes leading and trailing whitespace as `str.isspace`
 sees it in ASCII; `upper()` maps 'a'..'z' to 'A'..'Z' and leaves every other
 character alone.
 */
module PyKeys {

  /** ASCII whitespace for `str.isspace`: tab, line feed, vertical tab, form feed, carriage return, the four separators 0x1C..0x1F, and space. */
  predicate IsSpace(c: char)
  {
    9 <= c as int <= 13 || 28 <= c as int <= 32
  }

  predicate AllSpace(s: string)
  {
    forall i | 0 <= i < |s| :: IsSpace(s[i])
  }

  function UpperChar(c: char): char
  {
    if 'a' <= c <= 'z' then (c as int - 32) as char else c
  }

  /** `str.upper()` on ASCII letters. */
  function Upper(s: string): (r: string)
    ensures |r| == |s|
    ensures forall i | 0 <= i < |s| :: r[i] == UpperChar(s[i])
  {
    if s == [] then [] else [UpperChar(s[0])] + Upper(s[1..])
  }

  function StripLeft(s: string): (r: string)
    ensures |r| <= |s|
  {
    if s != [] && IsSpace(s[0]) then StripLeft(s[1..]) else s
  }

  function StripRight(s: string): (r: string)
    ensures |r| <= |s|
  {
    if s != [] && IsSpace(s[|s| - 1]) then StripRight(s[..|s| - 1]) else s
  }

  /** `str.strip()` with no argument. */
  function Strip(s: string): (r: string)
    ensures |r| <= |s|
    ensures r == [] || (!IsSpace(r[0]) && !IsSpace(r[|r| - 1]))
    ensures AllSpace(s) <==> r == []
  {
    StripLeftShape(s);
    StripRightShape(StripLeft(s));
    StripRight(StripLeft(s))
  }

  /** The key a row is counted under: no surrounding whitespace and no lower-case ASCII letter. */
  function Normalize(s: string): (r: string)
    ensures |r| <= |s|
    ensures r == [] || (!IsSpace(r[0]) && !IsSpace(r[|r| - 1]))
    ensures AllSpace(s) <==> r == []
    ensures forall i | 0 <= i < |r| :: !('a' <= r[i] <= 'z')
  {
    Upper(Strip(s))
  }

  // ---------------------------------------------------------------- strip

  /** `StripLeft` drops exactly a whitespace prefix, and what is left does not start with whitespace. */
  lemma {:induction false} StripLeftShape(s: string)
    ensures exists n | 0 <= n <= |s| :: StripLeft(s) == s[n..] && AllSpace(s[..n])
    ensures StripLeft(s) == [] || !IsSpace(StripLeft(s)[0])
    decreases |s|
  {
    if s != [] && IsSpace(s[0]) {
      StripLeftShape(s[1..]);
      var n :| 0 <= n <= |s[1..]| && StripLeft(s[1..]) == s[1..][n..] && AllSpace(s[1..][..n]);
      assert s[n + 1..] == s[1..][n..];
      var dropped := s[..n + 1];
      assert AllSpace(dropped) by {
        forall i | 0 <= i < n + 1 ensures IsSpace(dropped[i]) {
          if i > 0 {
            assert dropped[i] == s[1..][..n][i - 1];
          }
        }
      }
    } else {
      assert s == s[0..];
    }
  }

  /** `StripRight` drops exactly a whitespace suffix, and what is left does not end with whitespace. */
  lemma StripRightShape(s: string)
    ensures exists n | 0 <= n <= |s| :: StripRight(s) == s[..n] && AllSpace(s[n..])
    ensures StripRight(s) == [] || !IsSpace(StripRight(s)[|StripRight(s)| - 1])
  {
    StripRightPrefix(s);
    StripRightLast(s);
  }

  lemma {:induction false} StripRightPrefix(s: string)
    ensures exists n | 0 <= n <= |s| :: StripRight(s) == s[..n] && AllSpace(s[n..])
    decreases |s|
  {
    if s != [] && IsSpace(s[|s| - 1]) {
      var p := s[..|s| - 1];
      StripRightPrefix(p);
      assert StripRight(s) == StripRight(p);
      var n :| 0 <= n <= |p| && StripRight(p) == p[..n] && AllSpace(p[n..]);
      assert s[..n] == p[..n];
      assert s[n..] == p[n..] + [s[|s| - 1]];
      AllSpaceSnoc(p[n..], s[|s| - 1]);
    } else {
      assert s == s[..|s|];
      assert AllSpace(s[|s|..]);
    }
  }

  lemma {:induction false} StripRightLast(s: string)
    ensures StripRight(s) == [] || !IsSpace(StripRight(s)[|StripRight(s)| - 1])
    decreases |s|
  {
    if s != [] && IsSpace(s[|s| - 1]) {
      StripRightLast(s[..|s| - 1]);
    }
  }

  lemma AllSpaceSnoc(w: string, c: char)
    requires AllSpace(w) && IsSpace(c)
    ensures AllSpace(w + [c])
  {
    assert forall i | 0 <= i < |w| :: (w + [c])[i] == w[i];
  }

  /** Leading whitespace makes no difference to `StripLeft`. */
  lemma {:induction false} StripLeftPadding(a: string, s: string)
    requires AllSpace(a)
    ensures StripLeft(a + s) == StripLeft(s)
    decreases |a|
  {
    if a != [] {
      assert (a + s)[1..] == a[1..] + s;
      StripLeftPadding(a[1..], s);
    } else {
      assert a + s == s;
    }
  }

  /** Trailing whitespace makes no difference to `StripRight`. */
  lemma {:induction false} StripRightPadding(s: string, b: string)
    requires AllSpace(b)
    ensures StripRight(s + b) == StripRight(s)
    decreases |b|
  {
    if b != [] {
      assert (s + b)[..|s + b| - 1] == s + b[..|b| - 1];
      StripRightPadding(s, b[..|b| - 1]);
    } else {
      assert s + b == s;
    }
  }

  /** `StripLeft` leaves the end of the string untouched. */
  lemma {:induction false} StripLeftAppend(s: string, b: string)
    requires !AllSpace(s)
    ensures StripLeft(s + b) == StripLeft(s) + b
    decreases |s|
  {
    assert s != [];
    assert (s + b)[0] == s[0];
    if IsSpace(s[0]) {
      assert (s + b)[1..] == s[1..] + b;
      assert !AllSpace(s[1..]) by {
        var i :| 0 <= i < |s| && !IsSpace(s[i]);
        assert s[1..][i - 1] == s[i];
      }
      StripLeftAppend(s[1..], b);
    }
  }

  /** An all-whitespace string strips to nothing. */
  lemma {:induction false} StripLeftAllSpace(s: string)
    requires AllSpace(s)
    ensures StripLeft(s) == []
    decreases |s|
  {
    if s != [] {
      StripLeftAllSpace(s[1..]);
    }
  }

  /** Whitespace around a key is ignored by `strip()`. */
  lemma StripPadding(a: string, s: string, b: string)
    requires AllSpace(a) && AllSpace(b)
    ensures Strip(a + s + b) == Strip(s)
  {
    assert a + s + b == a + (s + b);
    StripLeftPadding(a, s + b);
    if AllSpace(s) {
      assert AllSpace(s + b);
      StripLeftAllSpace(s + b);
      StripLeftAllSpace(s);
    } else {
      StripLeftAppend(s, b);
      StripRightPadding(StripLeft(s), b);
    }
  }

  /** Stripping twice is stripping once. */
  lemma StripIdempotent(s: string)
    ensures Strip(Strip(s)) == Strip(s)
  {
    StripLeftShape(s);
    var l := StripLeft(s);
    StripRightShape(l);
    var r := StripRight(l);
    var n :| 0 <= n <= |l| && r == l[..n] && AllSpace(l[n..]);
    if r != [] {
      // r starts where l starts, and l does not start with whitespace
      assert r[0] == l[0];
      assert StripLeft(r) == r;
      StripRightShape(r);
      assert StripRight(r) == r;
    }
  }

  // ---------------------------------------------------------------- upper

  /** `upper()` touches no whitespace character and makes none. */
  lemma UpperCharSpace(c: char)
    ensures IsSpace(UpperChar(c)) == IsSpace(c)
  {
  }

  lemma {:induction false} UpperStripLeft(s: string)
    ensures Upper(StripLeft(s)) == StripLeft(Upper(s))
    decreases |s|
  {
    if s != [] {
      assert Upper(s)[1..] == Upper(s[1..]);
      UpperCharSpace(s[0]);
      UpperStripLeft(s[1..]);
    }
  }

  lemma {:induction false} UpperStripRight(s: string)
    ensures Upper(StripRight(s)) == StripRight(Upper(s))
    decreases |s|
  {
    if s != [] {
      assert Upper(s)[..|s| - 1] == Upper(s[..|s| - 1]);
      UpperCharSpace(s[|s| - 1]);
      UpperStripRight(s[..|s| - 1]);
    }
  }

  /** Stripping and upper-casing commute, so the normalised key is the stripped upper-cased text. */
  lemma NormalizeIsStripOfUpper(s: string)
    ensures Normalize(s) == Strip(Upper(s))
  {
    UpperStripLeft(s);
    UpperStripRight(StripLeft(s));
  }

  lemma UpperIdempotent(s: string)
    ensures Upper(Upper(s)) == Upper(s)
  {
  }

  // ---------------------------------------------------------------- normalize

  /** Keys that differ only in surrounding whitespace normalise to the same key. */
  lemma NormalizeIgnoresPadding(a: string, s: string, b: string)
    requires AllSpace(a) && AllSpace(b)
    ensures Normalize(a + s + b) == Normalize(s)
  {
    StripPadding(a, s, b);
  }

  /** Keys that differ only in letter case normalise to the same key. */
  lemma NormalizeIgnoresCase(s: string, t: string)
    requires Upper(s) == Upper(t)
    ensures Normalize(s) == Normalize(t)
  {
    NormalizeIsStripOfUpper(s);
    NormalizeIsStripOfUpper(t);
  }

  /** A normalised key is its own normal form. */
  lemma NormalizeIdempotent(s: string)
    ensures Normalize(Normalize(s)) == Normalize(s)
  {
    var t := Strip(s);
    NormalizeIsStripOfUpper(Upper(t));
    UpperIdempotent(t);
    assert Normalize(Normalize(s)) == Strip(Upper(t));
    NormalizeIsStripOfUpper(t);
    StripIdempotent(s);
  }
}
