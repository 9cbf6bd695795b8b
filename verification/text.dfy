/**
 The string operations the converter borrows from Python's `str`: `split()`
 with no argument (runs of non-whitespace), `strip()`, `split(',')` and the
 list comprehension that drops empty comma fields.
 */
module Text {

  /** Python's whitespace class, as used by `str.split()` and `str.strip()`
      without arguments (the characters for which `str.isspace()` holds). */
  predicate IsWs(c: char) {
    var n := c as int;
    || 0x09 <= n <= 0x0D
    || 0x1C <= n <= 0x20
    || n == 0x85 || n == 0xA0 || n == 0x1680
    || 0x2000 <= n <= 0x200A
    || n == 0x2028 || n == 0x2029 || n == 0x202F || n == 0x205F || n == 0x3000
  }

  predicate AllWs(s: string) {
    forall i :: 0 <= i < |s| ==> IsWs(s[i])
  }

  predicate NoWs(s: string) {
    forall i :: 0 <= i < |s| ==> !IsWs(s[i])
  }

  /** Whitespace-free words, joined by single spaces. */
  function Unwords(ws: seq<string>): string {
    if |ws| == 0 then ""
    else if |ws| == 1 then ws[0]
    else ws[0] + " " + Unwords(ws[1..])
  }

  // ---------------------------------------------------------------------
  // str.split() with no argument
  // ---------------------------------------------------------------------

  /** Length of the longest whitespace-free prefix of `s`. */
  function RunLen(s: string): (n: nat)
    ensures n <= |s|
    ensures NoWs(s[..n])
    ensures n < |s| ==> IsWs(s[n])
  {
    if |s| == 0 || IsWs(s[0]) then 0
    else
      var m := RunLen(s[1..]);
      assert s[..m + 1] == [s[0]] + s[1..][..m];
      m + 1
  }

  /** `s.split()`: the maximal runs of non-whitespace characters, in order. */
  function Words(s: string): (r: seq<string>)
    ensures forall i :: 0 <= i < |r| ==> r[i] != [] && NoWs(r[i])
    decreases |s|
  {
    if |s| == 0 then []
    else if IsWs(s[0]) then Words(s[1..])
    else
      var n := RunLen(s);
      [s[..n]] + Words(s[n..])
  }

  lemma {:induction false} RunLenBeforeWs(a: string, c: char, b: string)
    requires IsWs(c)
    ensures RunLen(a + [c] + b) == RunLen(a)
    decreases |a|
  {
    if |a| == 0 {
      assert (a + [c] + b)[0] == c;
    } else if !IsWs(a[0]) {
      assert (a + [c] + b)[1..] == a[1..] + [c] + b;
      RunLenBeforeWs(a[1..], c, b);
    }
  }

  /** Splitting is compositional: a whitespace character separates the words
      on its left from the words on its right. */
  lemma {:induction false} WordsConcat(a: string, c: char, b: string)
    requires IsWs(c)
    ensures Words(a + [c] + b) == Words(a) + Words(b)
    decreases |a|
  {
    var s := a + [c] + b;
    if |a| == 0 {
      assert s[1..] == b;
    } else if IsWs(a[0]) {
      assert s[1..] == a[1..] + [c] + b;
      WordsConcat(a[1..], c, b);
    } else {
      RunLenBeforeWs(a, c, b);
      var n := RunLen(a);
      assert s[..n] == a[..n];
      assert s[n..] == a[n..] + [c] + b;
      WordsConcat(a[n..], c, b);
    }
  }

  /** Splitting yields nothing exactly when the text is all whitespace
      (in particular for the empty text). */
  lemma {:induction false} WordsEmptyIff(s: string)
    ensures Words(s) == [] <==> AllWs(s)
    decreases |s|
  {
    if |s| > 0 {
      if IsWs(s[0]) {
        WordsEmptyIff(s[1..]);
        if AllWs(s[1..]) {
          forall i | 0 <= i < |s| ensures IsWs(s[i]) {
            if i > 0 { assert s[i] == s[1..][i - 1]; }
          }
        } else {
          var i :| 0 <= i < |s[1..]| && !IsWs(s[1..][i]);
          assert !IsWs(s[i + 1]);
        }
      }
    }
  }

  /** A single whitespace-free word splits to itself. */
  lemma {:induction false} WordsOfWord(w: string)
    requires w != [] && NoWs(w)
    ensures Words(w) == [w]
  {
    var n := RunLen(w);
    assert n == |w|;
    assert w[..n] == w;
    assert Words(w[n..]) == [];
  }

  /** `split()` inverts joining words with spaces. */
  lemma {:induction false} WordsUnwords(ws: seq<string>)
    requires forall i :: 0 <= i < |ws| ==> ws[i] != [] && NoWs(ws[i])
    ensures Words(Unwords(ws)) == ws
    decreases |ws|
  {
    if |ws| == 1 {
      WordsOfWord(ws[0]);
    } else if |ws| > 1 {
      WordsUnwords(ws[1..]);
      WordsOfWord(ws[0]);
      WordsConcat(ws[0], ' ', Unwords(ws[1..]));
      assert ws == [ws[0]] + ws[1..];
    }
  }

  lemma {:induction false} WordsWsPrefix(p: string, s: string)
    requires AllWs(p)
    ensures Words(p + s) == Words(s)
    decreases |p|
  {
    if |p| > 0 {
      assert (p + s)[1..] == p[1..] + s;
      WordsWsPrefix(p[1..], s);
    } else {
      assert p + s == s;
    }
  }

  lemma {:induction false} WordsWsSuffix(s: string, q: string)
    requires AllWs(q)
    ensures Words(s + q) == Words(s)
  {
    if |q| == 0 {
      assert s + q == s;
    } else {
      assert s + q == s + [q[0]] + q[1..];
      WordsConcat(s, q[0], q[1..]);
      WordsEmptyIff(q[1..]);
    }
  }

  // ---------------------------------------------------------------------
  // str.strip() with no argument
  // ---------------------------------------------------------------------

  /** Length of the leading whitespace of `s`. */
  function LeadingWs(s: string): (n: nat)
    ensures n <= |s|
    ensures AllWs(s[..n])
    ensures n < |s| ==> !IsWs(s[n])
  {
    if |s| == 0 || !IsWs(s[0]) then 0
    else
      var m := LeadingWs(s[1..]);
      assert s[..m + 1] == [s[0]] + s[1..][..m];
      m + 1
  }

  /** Index where the trailing whitespace of `s` starts. */
  function TrailingWs(s: string): (n: nat)
    ensures n <= |s|
    ensures AllWs(s[n..])
    ensures 0 < n ==> !IsWs(s[n - 1])
  {
    if |s| == 0 || !IsWs(s[|s| - 1]) then |s|
    else
      var m := TrailingWs(s[..|s| - 1]);
      assert s[m..] == s[..|s| - 1][m..] + [s[|s| - 1]];
      m
  }

  /** `s` is `r` surrounded by whitespace only, `r` starting at index `i`. */
  predicate Padded(s: string, i: int, r: string) {
    0 <= i <= |s| - |r| && r == s[i..i + |r|] && AllWs(s[..i]) && AllWs(s[i + |r|..])
  }

  /** `s.strip()`: `s` with its maximal leading and trailing whitespace removed. */
  function Strip(s: string): (r: string)
    ensures exists i :: Padded(s, i, r)
    ensures r == [] || (!IsWs(r[0]) && !IsWs(r[|r| - 1]))
  {
    var t := s[LeadingWs(s)..];
    StripShape(s, t);
    t[..TrailingWs(t)]
  }

  lemma {:induction false} StripShape(s: string, t: string)
    requires t == s[LeadingWs(s)..]
    ensures Padded(s, LeadingWs(s), t[..TrailingWs(t)])
    ensures var r := t[..TrailingWs(t)]; r == [] || (!IsWs(r[0]) && !IsWs(r[|r| - 1]))
  {
    var i := LeadingWs(s);
    var j := TrailingWs(t);
    var r := t[..j];
    assert r == s[i..i + j];
    assert s[i + j..] == t[j..];
    if j > 0 {
      assert r[0] == s[i];
      assert r[j - 1] == t[j - 1];
    }
  }

  /** A text that neither starts nor ends with whitespace is its own
      stripped form. */
  lemma {:induction false} StripTrimmed(s: string)
    requires s == [] || (!IsWs(s[0]) && !IsWs(s[|s| - 1]))
    ensures Strip(s) == s
  {
    assert LeadingWs(s) == 0;
    assert s[0..] == s;
    assert TrailingWs(s) == |s|;
  }

  /** A text strips to nothing exactly when it is whitespace-only. */
  lemma {:induction false} StripEmptyIff(s: string)
    ensures Strip(s) == [] <==> AllWs(s)
  {
    var r := Strip(s);
    var i :| Padded(s, i, r);
    if r == [] {
      assert s == s[..i] + s[i..];
      assert forall j :: 0 <= j < |s| ==> IsWs(s[j]) by {
        forall j | 0 <= j < |s| ensures IsWs(s[j]) {
          if j < i { assert s[j] == s[..i][j]; } else { assert s[j] == s[i..][j - i]; }
        }
      }
    } else {
      assert r[0] == s[i];
    }
  }

  /** Stripping is idempotent on every text. */
  lemma {:induction false} StripIdempotent(s: string)
    ensures Strip(Strip(s)) == Strip(s)
  {
    StripTrimmed(Strip(s));
  }

  lemma {:induction false} WordsDropLeading(s: string)
    ensures Words(s[LeadingWs(s)..]) == Words(s)
  {
    var i := LeadingWs(s);
    assert s == s[..i] + s[i..];
    WordsWsPrefix(s[..i], s[i..]);
  }

  lemma {:induction false} WordsDropTrailing(t: string)
    ensures Words(t[..TrailingWs(t)]) == Words(t)
  {
    var j := TrailingWs(t);
    assert t == t[..j] + t[j..];
    WordsWsSuffix(t[..j], t[j..]);
  }

  /** Stripping never changes how a text splits into words. */
  lemma {:induction false} WordsStrip(s: string)
    ensures Words(Strip(s)) == Words(s)
  {
    WordsDropLeading(s);
    WordsDropTrailing(s[LeadingWs(s)..]);
  }

  // ---------------------------------------------------------------------
  // str.split(sep) and dropping empty fields
  // ---------------------------------------------------------------------

  /** `s.split(sep)`: the pieces between occurrences of `sep`, empty ones included. */
  function Split(s: string, sep: char): (r: seq<string>)
    ensures |r| >= 1
    ensures forall i :: 0 <= i < |r| ==> sep !in r[i]
  {
    if |s| == 0 then [""]
    else
      var rest := Split(s[1..], sep);
      if s[0] == sep then [""] + rest
      else [[s[0]] + rest[0]] + rest[1..]
  }

  /** `sep.join(parts)`. */
  function Join(parts: seq<string>, sep: char): string {
    if |parts| == 0 then ""
    else if |parts| == 1 then parts[0]
    else parts[0] + [sep] + Join(parts[1..], sep)
  }

  /** Joining the pieces back with the separator restores the text. */
  lemma {:induction false} JoinSplit(s: string, sep: char)
    ensures Join(Split(s, sep), sep) == s
  {
    if |s| > 0 {
      var rest := Split(s[1..], sep);
      JoinSplit(s[1..], sep);
      if s[0] == sep {
        assert Split(s, sep) == [""] + rest;
        assert ([""] + rest)[1..] == rest;
      } else {
        var r := Split(s, sep);
        assert r == [[s[0]] + rest[0]] + rest[1..];
        if |rest| > 1 {
          assert r[1..] == rest[1..];
          assert rest == [rest[0]] + rest[1..];
        }
      }
    }
  }

  /** Extending the first piece commutes with appending further pieces. */
  lemma {:induction false} ConsPiece(c: char, left: seq<string>, right: seq<string>)
    requires |left| >= 1
    ensures ([[c] + left[0]] + left[1..]) + right == [[c] + (left + right)[0]] + (left + right)[1..]
  {
    assert (left + right)[1..] == left[1..] + right;
  }

  /** A separator splits the pieces on its left from those on its right. */
  lemma {:induction false} SplitConcat(a: string, sep: char, b: string)
    ensures Split(a + [sep] + b, sep) == Split(a, sep) + Split(b, sep)
    decreases |a|
  {
    var s := a + [sep] + b;
    if |a| == 0 {
      assert s[1..] == b;
    } else {
      assert s[1..] == a[1..] + [sep] + b;
      SplitConcat(a[1..], sep, b);
      var left := Split(a[1..], sep);
      var right := Split(b, sep);
      if a[0] == sep {
        assert Split(s, sep) == [""] + (left + right);
        assert Split(a, sep) == [""] + left;
      } else {
        assert Split(s, sep) == [[a[0]] + (left + right)[0]] + (left + right)[1..];
        assert Split(a, sep) == [[a[0]] + left[0]] + left[1..];
        ConsPiece(a[0], left, right);
      }
    }
  }

  /** A separator-free text is one piece. */
  lemma {:induction false} SplitNoSep(w: string, sep: char)
    requires sep !in w
    ensures Split(w, sep) == [w]
  {
    if |w| > 0 {
      assert sep !in w[1..];
      SplitNoSep(w[1..], sep);
      assert w == [w[0]] + w[1..];
    }
  }

  /** `[p for p in parts if p != '']`. */
  function NonEmpty(parts: seq<string>): (r: seq<string>)
    ensures |r| <= |parts|
    ensures forall i :: 0 <= i < |r| ==> r[i] != "" && r[i] in parts
  {
    if |parts| == 0 then []
    else if parts[0] == "" then NonEmpty(parts[1..])
    else [parts[0]] + NonEmpty(parts[1..])
  }

  /** The filter distributes over concatenation, so the kept pieces stay in
      their order. */
  lemma {:induction false} NonEmptyConcat(a: seq<string>, b: seq<string>)
    ensures NonEmpty(a + b) == NonEmpty(a) + NonEmpty(b)
  {
    if |a| > 0 {
      assert (a + b)[1..] == a[1..] + b;
      NonEmptyConcat(a[1..], b);
    } else {
      assert a + b == b;
    }
  }

  /** A single piece is kept exactly when it is non-empty. Together with
      `NonEmptyConcat` this fixes the filter on every list: every non-empty
      piece, in order. */
  lemma {:induction false} NonEmptySingle(p: string)
    ensures NonEmpty([p]) == if p == "" then [] else [p]
  {
    assert [p][1..] == [];
  }

  /** The non-empty comma-separated fields of a coordinate tuple. */
  function Fields(token: string): (r: seq<string>)
    ensures forall i :: 0 <= i < |r| ==> r[i] != "" && ',' !in r[i]
  {
    NonEmpty(Split(token, ','))
  }

  /** A comma separates the fields on its left from those on its right;
      empty fields it creates are dropped. */
  lemma {:induction false} FieldsConcat(a: string, b: string)
    ensures Fields(a + [','] + b) == Fields(a) + Fields(b)
  {
    SplitConcat(a, ',', b);
    NonEmptyConcat(Split(a, ','), Split(b, ','));
  }

  /** A non-empty comma-free text is exactly one field. */
  lemma {:induction false} FieldsOfField(w: string)
    requires w != "" && ',' !in w
    ensures Fields(w) == [w]
  {
    SplitNoSep(w, ',');
  }
}
