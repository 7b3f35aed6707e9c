/**
 The string operations the row normaliser relies on: splitting a field on the
 secondary delimiter `;` (Python's `str.split(';')`) and trimming surrounding
 whitespace (Python's `str.strip()`, over an explicit ASCII whitespace set).
 */
module Text {

  /** The secondary delimiter that packs several attendees into one field. */
  const Separator: char := ';'

  /** The characters `str.strip()` removes, restricted to ASCII: tab, line feed,
      vertical tab, form feed, carriage return (U+0009..U+000D), the four
      information separators (U+001C..U+001F) and the space. */
  predicate IsWhitespace(c: char) {
    c == ' ' || ('\t' <= c <= '\r') || ('\U{1C}' <= c <= '\U{1F}')
  }

  /** Number of occurrences of the separator in `s`. */
  function Separators(s: string): nat {
    if |s| == 0 then 0
    else (if s[0] == Separator then 1 else 0) + Separators(s[1..])
  }

  /** `s.split(';')`: the maximal separator-free pieces of `s`, in order; an
      empty string gives one empty piece. */
  function Split(s: string): (pieces: seq<string>)
    ensures |pieces| >= 1
    ensures forall k :: 0 <= k < |pieces| ==> Separator !in pieces[k]
    decreases |s|
  {
    if |s| == 0 then [""]
    else
      var rest := Split(s[1..]);
      if s[0] == Separator then [""] + rest
      else [[s[0]] + rest[0]] + rest[1..]
  }

  /** `';'.join(pieces)`, the inverse of Split. */
  function Join(pieces: seq<string>): string
    requires |pieces| >= 1
  {
    if |pieces| == 1 then pieces[0]
    else pieces[0] + [Separator] + Join(pieces[1..])
  }

  /** Splitting loses nothing: joining the pieces gives back the field. */
  lemma {:induction false} JoinSplit(s: string)
    ensures Join(Split(s)) == s
    decreases |s|
  {
    if |s| > 0 {
      JoinSplit(s[1..]);
      var rest := Split(s[1..]);
      if s[0] != Separator && |rest| > 1 {
        assert Split(s)[1..] == rest[1..];
        assert Join(Split(s)) == [s[0]] + rest[0] + [Separator] + Join(rest[1..]);
      }
      assert s == [s[0]] + s[1..];
    }
  }

  /** A field has exactly one more piece than it has separators. */
  lemma {:induction false} SplitLength(s: string)
    ensures |Split(s)| == Separators(s) + 1
    decreases |s|
  {
    if |s| > 0 {
      SplitLength(s[1..]);
    }
  }

  /** Prepending a separator-free prefix extends the first piece only. */
  lemma {:induction false} SplitPrefix(a: string, t: string)
    requires Separator !in a
    ensures Split(a + t) == [a + Split(t)[0]] + Split(t)[1..]
    decreases |a|
  {
    if |a| > 0 {
      assert (a + t)[1..] == a[1..] + t;
      assert (a + t)[0] == a[0];
      SplitPrefix(a[1..], t);
      assert [a[0]] + (a[1..] + Split(t)[0]) == a + Split(t)[0];
    } else {
      assert a + t == t;
      assert a + Split(t)[0] == Split(t)[0];
      assert Split(t) == [Split(t)[0]] + Split(t)[1..];
    }
  }

  /** Joining separator-free pieces and splitting again gives back the pieces. */
  lemma {:induction false} SplitJoin(pieces: seq<string>)
    requires |pieces| >= 1
    requires forall k :: 0 <= k < |pieces| ==> Separator !in pieces[k]
    ensures Split(Join(pieces)) == pieces
    decreases |pieces|
  {
    if |pieces| == 1 {
      SplitPrefix(pieces[0], "");
      assert pieces[0] + "" == pieces[0];
    } else {
      var tail := [Separator] + Join(pieces[1..]);
      SplitJoin(pieces[1..]);
      assert Split(tail) == [""] + pieces[1..];
      SplitPrefix(pieces[0], tail);
      assert pieces[0] + tail == Join(pieces);
      assert pieces[0] + "" == pieces[0];
      assert pieces == [pieces[0]] + pieces[1..];
    }
  }

  /** `s.lstrip()`: the longest suffix of `s` that does not start with whitespace. */
  function TrimStart(s: string): (r: string)
    ensures |r| <= |s| && r == s[|s| - |r|..]
    ensures forall k :: 0 <= k < |s| - |r| ==> IsWhitespace(s[k])
    ensures r == "" || !IsWhitespace(r[0])
    decreases |s|
  {
    if |s| > 0 && IsWhitespace(s[0]) then TrimStart(s[1..]) else s
  }

  /** `s.rstrip()`: the longest prefix of `s` that does not end with whitespace. */
  function TrimEnd(s: string): (r: string)
    ensures |r| <= |s| && r == s[..|r|]
    ensures forall k :: |r| <= k < |s| ==> IsWhitespace(s[k])
    ensures r == "" || !IsWhitespace(r[|r| - 1])
    decreases |s|
  {
    if |s| > 0 && IsWhitespace(s[|s| - 1]) then TrimEnd(s[..|s| - 1]) else s
  }

  /** `s.strip()`. */
  function Trim(s: string): string {
    TrimEnd(TrimStart(s))
  }

  /** No whitespace at either end of `s`. */
  predicate IsTrimmed(s: string) {
    s == "" || (!IsWhitespace(s[0]) && !IsWhitespace(s[|s| - 1]))
  }

  /** Trim keeps a contiguous slice of its input, drops only whitespace around
      it, and leaves nothing to trim. */
  lemma TrimSpec(s: string)
    ensures exists i, j ::
              && 0 <= i <= j <= |s| && Trim(s) == s[i..j]
              && (forall k :: 0 <= k < i ==> IsWhitespace(s[k]))
              && (forall k :: j <= k < |s| ==> IsWhitespace(s[k]))
    ensures IsTrimmed(Trim(s))
  {
    var u := TrimStart(s);
    var r := TrimEnd(u);
    var i := |s| - |u|;
    var j := i + |r|;
    assert r == s[i..j];
    if r != "" {
      assert u != "" && u[0] == r[0];
    }
  }

  /** A string without whitespace at its ends is left as it is, so trimming
      twice is trimming once. */
  lemma TrimmedIsFixed(s: string)
    requires IsTrimmed(s)
    ensures Trim(s) == s
  {
  }

  lemma TrimIdempotent(s: string)
    ensures Trim(Trim(s)) == Trim(s)
  {
    TrimSpec(s);
    TrimmedIsFixed(Trim(s));
  }

  /** Trimming removes characters and adds none, so it cannot create a separator. */
  lemma TrimKeepsSeparatorFree(s: string)
    requires Separator !in s
    ensures Separator !in Trim(s)
  {
    TrimSpec(s);
    var i, j :| 0 <= i <= j <= |s| && Trim(s) == s[i..j];
    assert forall k :: 0 <= k < j - i ==> Trim(s)[k] == s[i + k];
  }
}
