/** The string operations the command shell applies to a raw input line:
    lower-casing, trimming, and splitting on / joining with a single space. */
module Text {

  /** The characters removed by ECMAScript's String.prototype.trim
      (WhiteSpace and LineTerminator). */
  predicate IsWhitespace(c: char)
  {
    || c == '\t' || c == '\n' || c == '\U{B}' || c == '\U{C}' || c == '\r'
    || c == ' ' || c == '\U{A0}' || c == '\U{1680}'
    || ('\U{2000}' <= c <= '\U{200A}')
    || c == '\U{2028}' || c == '\U{2029}' || c == '\U{202F}' || c == '\U{205F}'
    || c == '\U{3000}' || c == '\U{FEFF}'
  }

  predicate IsUpper(c: char)
  {
    'A' <= c <= 'Z'
  }

  /** Lower-casing of one character, restricted to ASCII letters. */
  function LowerChar(c: char): (r: char)
    ensures IsUpper(c) ==> r as int == c as int + 32
    ensures !IsUpper(c) ==> r == c
  {
    if IsUpper(c) then (c as int + 32) as char else c
  }

  /** `r` is `s` with each character lower-cased on its own. */
  predicate LowersTo(s: string, r: string)
  {
    |r| == |s| && forall i :: 0 <= i < |s| ==> r[i] == LowerChar(s[i])
  }

  function Lower(s: string): (r: string)
    ensures |r| == |s|
    ensures forall i :: 0 <= i < |r| ==> !IsUpper(r[i])
    ensures LowersTo(s, r)
  {
    seq(|s|, i requires 0 <= i < |s| => LowerChar(s[i]))
  }

  /** Lower-casing twice is lower-casing once. */
  lemma LowerIdempotent(s: string)
    ensures Lower(Lower(s)) == Lower(s)
  {
  }

  /** Lower-casing distributes over concatenation. */
  lemma LowerAppend(a: string, b: string)
    ensures Lower(a + b) == Lower(a) + Lower(b)
  {
  }

  /** Lower-casing never creates or removes whitespace, so it commutes with trimming. */
  lemma LowerKeepsWhitespace(s: string)
    ensures forall i :: 0 <= i < |s| ==> (IsWhitespace(Lower(s)[i]) <==> IsWhitespace(s[i]))
  {
  }

  /** Removes leading whitespace. */
  function TrimStart(s: string): (r: string)
    ensures |r| <= |s| && r == s[|s| - |r|..]
    ensures |r| > 0 ==> !IsWhitespace(r[0])
    ensures forall i :: 0 <= i < |s| - |r| ==> IsWhitespace(s[i])
    decreases |s|
  {
    if |s| > 0 && IsWhitespace(s[0]) then TrimStart(s[1..]) else s
  }

  /** Removes trailing whitespace. */
  function TrimEnd(s: string): (r: string)
    ensures |r| <= |s| && r == s[..|r|]
    ensures |r| > 0 ==> !IsWhitespace(r[|r| - 1])
    ensures forall i :: |r| <= i < |s| ==> IsWhitespace(s[i])
    decreases |s|
  {
    if |s| > 0 && IsWhitespace(s[|s| - 1]) then TrimEnd(s[..|s| - 1]) else s
  }

  /** `r` is the slice of `s` starting at `i`, with only whitespace around it. */
  predicate TrimmedAt(s: string, r: string, i: nat)
  {
    && i + |r| <= |s| && r == s[i..i + |r|]
    && (forall k :: 0 <= k < i ==> IsWhitespace(s[k]))
    && (forall k :: i + |r| <= k < |s| ==> IsWhitespace(s[k]))
  }

  /** Removes whitespace at both ends. */
  function Trim(s: string): (r: string)
    ensures |r| <= |s|
    ensures |r| > 0 ==> !IsWhitespace(r[0]) && !IsWhitespace(r[|r| - 1])
    ensures (forall i :: 0 <= i < |s| ==> IsWhitespace(s[i])) <==> r == ""
    ensures exists i :: TrimmedAt(s, r, i)
  {
    var t := TrimStart(s);
    var r := TrimEnd(t);
    TrimStartEnd(s, t, r);
    BlankIffEmpty(s, r, |s| - |t|);
    r
  }

  /** Cutting whitespace off the front of `s` and then off the back of the rest
      leaves a slice of `s` framed by whitespace. */
  lemma TrimStartEnd(s: string, t: string, r: string)
    requires |t| <= |s| && t == s[|s| - |t|..]
    requires forall k :: 0 <= k < |s| - |t| ==> IsWhitespace(s[k])
    requires |r| <= |t| && r == t[..|r|]
    requires forall k :: |r| <= k < |t| ==> IsWhitespace(t[k])
    ensures TrimmedAt(s, r, |s| - |t|)
  {
    var i := |s| - |t|;
    forall k | 0 <= k < |r|
      ensures r[k] == s[i + k]
    {
      assert r[k] == t[k] == s[i + k];
    }
    assert r == s[i..i + |r|];
    forall k | i + |r| <= k < |s|
      ensures IsWhitespace(s[k])
    {
      assert s[k] == t[k - i];
    }
  }

  /** A whitespace-framed slice with non-whitespace ends is empty exactly when the
      whole string is whitespace. */
  lemma BlankIffEmpty(s: string, r: string, i: nat)
    requires TrimmedAt(s, r, i)
    requires |r| > 0 ==> !IsWhitespace(r[0])
    ensures (forall k :: 0 <= k < |s| ==> IsWhitespace(s[k])) <==> r == ""
  {
    if |r| > 0 {
      assert s[i] == r[0];
    }
  }

  /** A string with no whitespace at either end is its own trim. */
  lemma TrimOfTrimmed(s: string)
    requires |s| > 0 ==> !IsWhitespace(s[0]) && !IsWhitespace(s[|s| - 1])
    ensures Trim(s) == s
  {
  }

  /** Lower-casing commutes with removing leading whitespace. */
  lemma {:induction false} LowerTrimStart(s: string)
    ensures TrimStart(Lower(s)) == Lower(TrimStart(s))
    decreases |s|
  {
    LowerKeepsWhitespace(s);
    if |s| > 0 && IsWhitespace(s[0]) {
      assert Lower(s)[1..] == Lower(s[1..]);
      LowerTrimStart(s[1..]);
    }
  }

  /** Lower-casing commutes with removing trailing whitespace. */
  lemma {:induction false} LowerTrimEnd(s: string)
    ensures TrimEnd(Lower(s)) == Lower(TrimEnd(s))
    decreases |s|
  {
    LowerKeepsWhitespace(s);
    if |s| > 0 && IsWhitespace(s[|s| - 1]) {
      assert Lower(s)[..|s| - 1] == Lower(s[..|s| - 1]);
      LowerTrimEnd(s[..|s| - 1]);
    }
  }

  /** Lower-casing then trimming, as the command line does, equals trimming then
      lower-casing. */
  lemma LowerTrimCommute(s: string)
    ensures Trim(Lower(s)) == Lower(Trim(s))
  {
    LowerTrimStart(s);
    LowerTrimEnd(TrimStart(s));
  }

  /** Trimming is idempotent. */
  lemma TrimIdempotent(s: string)
    ensures Trim(Trim(s)) == Trim(s)
  {
    TrimOfTrimmed(Trim(s));
  }

  /** The pieces of `[c] + s` given the pieces of `s`: a space opens a new, empty
      first piece, any other character joins the first piece. */
  function Prepend(c: char, pieces: seq<string>): (r: seq<string>)
    requires |pieces| >= 1
    ensures |r| >= 1
    ensures c == ' ' ==> r[0] == "" && r[1..] == pieces
    ensures c != ' ' ==> r[0] == [c] + pieces[0] && r[1..] == pieces[1..]
  {
    if c == ' ' then [""] + pieces else [[c] + pieces[0]] + pieces[1..]
  }

  /** JavaScript's `s.split(' ')`: the pieces between single spaces, always at
      least one, empty pieces included. */
  function Split(s: string): (r: seq<string>)
    ensures |r| >= 1
    ensures forall k :: 0 <= k < |r| ==> ' ' !in r[k]
    decreases |s|
  {
    if |s| == 0 then [""] else Prepend(s[0], Split(s[1..]))
  }

  /** JavaScript's `parts.join(' ')`: the pieces in order, one space between
      neighbours. */
  function Join(parts: seq<string>): (r: string)
    ensures |parts| == 0 ==> r == ""
    ensures |parts| > 0 ==> |parts[0]| <= |r| && r[..|parts[0]|] == parts[0]
    ensures |parts| > 1 ==> |r| > |parts[0]| && r[|parts[0]|] == ' '
    decreases |parts|
  {
    if |parts| == 0 then ""
    else if |parts| == 1 then parts[0]
    else parts[0] + " " + Join(parts[1..])
  }

  /** Joining the pieces of a split gives back the split string. */
  lemma {:induction false} JoinSplit(s: string)
    ensures Join(Split(s)) == s
    decreases |s|
  {
    if |s| > 0 {
      JoinSplit(s[1..]);
      JoinPrepend(s[0], Split(s[1..]));
      assert s == [s[0]] + s[1..];
    }
  }

  /** Prepending a character to the pieces prepends it to their join. */
  lemma JoinPrepend(c: char, pieces: seq<string>)
    requires |pieces| >= 1
    ensures Join(Prepend(c, pieces)) == [c] + Join(pieces)
  {
    if c == ' ' {
      JoinPrependSpace(pieces);
    } else if |pieces| == 1 {
      assert Prepend(c, pieces) == [[c] + pieces[0]];
    } else {
      JoinPrependLetter(c, pieces);
    }
  }

  /** A leading space opens an empty first piece, which the join turns back into
      that space. */
  lemma JoinPrependSpace(pieces: seq<string>)
    requires |pieces| >= 1
    ensures Join(Prepend(' ', pieces)) == " " + Join(pieces)
  {
    JoinCons("", pieces);
  }

  /** A leading non-space character extends the first of several pieces. */
  lemma JoinPrependLetter(c: char, pieces: seq<string>)
    requires c != ' ' && |pieces| > 1
    ensures Join(Prepend(c, pieces)) == [c] + Join(pieces)
  {
    var r := Prepend(c, pieces);
    var first := pieces[0];
    var tail := Join(pieces[1..]);
    assert r[0] == [c] + first && r[1..] == pieces[1..];
    JoinUnfold(r);
    JoinUnfold(pieces);
    PrependChar(c, first, tail);
  }

  /** The join of several pieces is the first one, a space, and the join of the rest. */
  lemma JoinUnfold(parts: seq<string>)
    requires |parts| > 1
    ensures Join(parts) == parts[0] + " " + Join(parts[1..])
  {
  }

  /** A character in front of a piece stays in front of the piece, a space and more. */
  lemma PrependChar(c: char, first: string, tail: string)
    ensures ([c] + first) + " " + tail == [c] + (first + " " + tail)
  {
  }

  /** A piece in front of at least one more is followed by a space in the join. */
  lemma JoinCons(first: string, rest: seq<string>)
    requires |rest| >= 1
    ensures Join([first] + rest) == first + " " + Join(rest)
  {
    assert ([first] + rest)[1..] == rest;
  }

  /** Prepending a character commutes with appending further pieces. */
  lemma PrependAppend(c: char, pieces: seq<string>, right: seq<string>)
    requires |pieces| >= 1
    ensures Prepend(c, pieces + right) == Prepend(c, pieces) + right
  {
    var t := pieces + right;
    if c == ' ' {
      assert ([""] + pieces) + right == [""] + t;
    } else {
      var head := [c] + pieces[0];
      assert t[0] == pieces[0];
      assert t[1..] == pieces[1..] + right;
      assert ([head] + pieces[1..]) + right == [head] + (pieces[1..] + right);
    }
  }

  /** Splitting at a space splits the two sides independently. */
  lemma {:induction false} SplitAtSpace(a: string, b: string)
    ensures Split(a + " " + b) == Split(a) + Split(b)
    decreases |a|
  {
    var s := a + " " + b;
    if |a| == 0 {
      assert s[0] == ' ' && s[1..] == b;
    } else {
      assert s[0] == a[0] && s[1..] == a[1..] + " " + b;
      SplitAtSpace(a[1..], b);
      PrependAppend(a[0], Split(a[1..]), Split(b));
    }
  }

  /** A string with no space is a single piece. */
  lemma {:induction false} SplitNoSpace(s: string)
    requires ' ' !in s
    ensures Split(s) == [s]
    decreases |s|
  {
    if |s| > 0 {
      assert s[0] in s;
      assert forall c :: c in s[1..] ==> c in s;
      SplitNoSpace(s[1..]);
      assert [s[0]] + s[1..] == s;
    }
  }

  /** Splitting a join of space-free pieces gives back the pieces. */
  lemma {:induction false} SplitJoin(parts: seq<string>)
    requires |parts| >= 1
    requires forall k :: 0 <= k < |parts| ==> ' ' !in parts[k]
    ensures Split(Join(parts)) == parts
    decreases |parts|
  {
    SplitNoSpace(parts[0]);
    if |parts| > 1 {
      SplitJoin(parts[1..]);
      SplitAtSpace(parts[0], Join(parts[1..]));
      assert [parts[0]] + parts[1..] == parts;
    }
  }
}
