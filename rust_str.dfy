/**
 * The two `str` operations the handler applies to a message id:
 * `trim_matches` with a set of characters, and `split` on one character.
 * Strings are sequences of characters.
 */
module RustStr {

  /** Length of the longest prefix of `s` made only of characters in `pat`. */
  function LeadingRun(s: string, pat: set<char>): (n: nat)
    ensures n <= |s|
    ensures forall k :: 0 <= k < n ==> s[k] in pat
    ensures n < |s| ==> s[n] !in pat
  {
    if |s| > 0 && s[0] in pat then 1 + LeadingRun(s[1..], pat) else 0
  }

  /** Length of the longest suffix of `s` made only of characters in `pat`. */
  function TrailingRun(s: string, pat: set<char>): (n: nat)
    ensures n <= |s|
    ensures forall k :: |s| - n <= k < |s| ==> s[k] in pat
    ensures n < |s| ==> s[|s| - 1 - n] !in pat
  {
    if |s| > 0 && s[|s| - 1] in pat then 1 + TrailingRun(s[..|s| - 1], pat) else 0
  }

  /**
   * `r` sits at offset `i` of `s`, and every character of `s` before or
   * after it is in `pat`.
   */
  ghost predicate TrimmedAt(s: string, pat: set<char>, i: int, r: string) {
    && 0 <= i <= i + |r| <= |s|
    && s[i..i + |r|] == r
    && (forall k :: 0 <= k < i ==> s[k] in pat)
    && (forall k :: i + |r| <= k < |s| ==> s[k] in pat)
  }

  /** Neither end of `r` is a character of `pat`. */
  predicate Unpadded(r: string, pat: set<char>) {
    r == [] || (r[0] !in pat && r[|r| - 1] !in pat)
  }

  /**
   * `str::trim_matches` with a character set: removes every leading and
   * every trailing character that is in `pat`, whole runs of them, not one.
   */
  function TrimMatches(s: string, pat: set<char>): (r: string)
    ensures |r| <= |s|
    ensures Unpadded(r, pat)
    ensures exists i :: TrimmedAt(s, pat, i, r)
  {
    var i := LeadingRun(s, pat);
    var rest := s[i..];
    var j := i + |rest| - TrailingRun(rest, pat);
    assert TrimmedAt(s, pat, i, s[i..j]);
    s[i..j]
  }

  /**
   * The characterisation above fixes the trimmed string: any infix that only
   * `pat` characters surround and that does not itself start or end with
   * one is the result of TrimMatches.
   */
  lemma TrimMatchesUnique(s: string, pat: set<char>, i: int, r: string)
    requires TrimmedAt(s, pat, i, r) && Unpadded(r, pat)
    ensures TrimMatches(s, pat) == r
  {
    var n := LeadingRun(s, pat);
    if r == [] {
      assert n == |s|;
      assert s[n..] == [];
    } else {
      assert s[i] == r[0];
      assert n == i;
      var rest := s[i..];
      var e := |s| - (i + |r|);
      assert rest[|rest| - 1 - e] == r[|r| - 1];
      assert TrailingRun(rest, pat) == e;
    }
  }

  /** Trimming a string that already has no `pat` character at either end changes nothing. */
  lemma TrimMatchesUnpadded(s: string, pat: set<char>)
    requires Unpadded(s, pat)
    ensures TrimMatches(s, pat) == s
  {
    assert s[0..|s|] == s;
    TrimMatchesUnique(s, pat, 0, s);
  }

  /** Trimming is idempotent. */
  lemma TrimMatchesIdempotent(s: string, pat: set<char>)
    ensures TrimMatches(TrimMatches(s, pat), pat) == TrimMatches(s, pat)
  {
    TrimMatchesUnpadded(TrimMatches(s, pat), pat);
  }

  /**
   * Wrapping a string in one more `pat` character on each side does not
   * change what trimming leaves.
   */
  lemma TrimMatchesAbsorbs(s: string, pat: set<char>, open: char, close: char)
    requires open in pat && close in pat
    ensures TrimMatches([open] + s + [close], pat) == TrimMatches(s, pat)
  {
    var t := TrimMatches(s, pat);
    var i :| TrimmedAt(s, pat, i, t);
    var w := [open] + s + [close];
    assert w[i + 1..i + 1 + |t|] == s[i..i + |t|];
    forall k | 0 <= k < i + 1
      ensures w[k] in pat
    {
      if k > 0 {
        assert w[k] == s[k - 1];
      }
    }
    forall k | i + 1 + |t| <= k < |w|
      ensures w[k] in pat
    {
      if k < |w| - 1 {
        assert w[k] == s[k - 1];
      }
    }
    TrimMatchesUnique(w, pat, i + 1, t);
  }

  /** Rust's `[&str]::join` with a one-character separator. */
  function Join(parts: seq<string>, sep: char): string {
    if |parts| == 0 then []
    else if |parts| == 1 then parts[0]
    else parts[0] + [sep] + Join(parts[1..], sep)
  }

  /**
   * `str::split` on one character, collected: the pieces between
   * separators, empty pieces kept.
   */
  function Split(s: string, sep: char): (parts: seq<string>)
    ensures |parts| == multiset(s)[sep] + 1
    ensures forall i :: 0 <= i < |parts| ==> sep !in parts[i]
    ensures Join(parts, sep) == s
  {
    if s == [] then [[]]
    else
      var rest := Split(s[1..], sep);
      SplitStep(s, sep, rest);
      if s[0] == sep then [[]] + rest
      else [[s[0]] + rest[0]] + rest[1..]
  }

  /** One step of Split: how the pieces of `s` come from the pieces of `s[1..]`. */
  lemma SplitStep(s: string, sep: char, rest: seq<string>)
    requires s != [] && |rest| >= 1 && Join(rest, sep) == s[1..]
    ensures multiset(s)[sep] == multiset(s[1..])[sep] + (if s[0] == sep then 1 else 0)
    ensures s[0] == sep ==> Join([[]] + rest, sep) == s
    ensures s[0] != sep ==> Join([[s[0]] + rest[0]] + rest[1..], sep) == s
  {
    assert s == [s[0]] + s[1..];
    if s[0] == sep {
      JoinCons([], rest, sep);
    } else {
      JoinExtendFirst(s[0], rest, sep);
    }
  }

  /** Joining a first piece onto at least one more puts a separator between them. */
  lemma JoinCons(p: string, rest: seq<string>, sep: char)
    requires |rest| >= 1
    ensures Join([p] + rest, sep) == p + [sep] + Join(rest, sep)
  {
    assert ([p] + rest)[1..] == rest;
  }

  /** Prepending a character to the first piece prepends it to the joined string. */
  lemma JoinExtendFirst(c: char, rest: seq<string>, sep: char)
    requires |rest| >= 1
    ensures Join([[c] + rest[0]] + rest[1..], sep) == [c] + Join(rest, sep)
  {
    if |rest| > 1 {
      JoinCons([c] + rest[0], rest[1..], sep);
      JoinCons(rest[0], rest[1..], sep);
      assert [rest[0]] + rest[1..] == rest;
    } else {
      assert [[c] + rest[0]] + rest[1..] == [[c] + rest[0]];
    }
  }

  /** Splitting a string that holds no separator gives the string back as the only piece. */
  lemma {:induction false} SplitNoSeparator(p: string, sep: char)
    requires sep !in p
    ensures Split(p, sep) == [p]
  {
    if p != [] {
      SplitNoSeparator(p[1..], sep);
      assert [p[0]] + p[1..] == p;
    }
  }

  /** A separator-free first piece followed by a separator splits off as the first piece. */
  lemma {:induction false} SplitFirstPiece(p: string, sep: char, t: string)
    requires sep !in p
    ensures Split(p + [sep] + t, sep) == [p] + Split(t, sep)
  {
    if p == [] {
      assert p + [sep] + t == [sep] + t;
      assert ([sep] + t)[1..] == t;
    } else {
      var tail := p[1..] + [sep] + t;
      assert p + [sep] + t == [p[0]] + tail by {
        assert p == [p[0]] + p[1..];
      }
      SplitFirstPiece(p[1..], sep, t);
      SplitExtendFirst(p[0], tail, sep, [p[1..]] + Split(t, sep));
      assert [[p[0]] + p[1..]] + Split(t, sep) == [p] + Split(t, sep) by {
        assert [p[0]] + p[1..] == p;
      }
    }
  }

  /** Prepending a non-separator to a string extends its first piece. */
  lemma SplitExtendFirst(c: char, s: string, sep: char, pieces: seq<string>)
    requires c != sep && Split(s, sep) == pieces
    ensures Split([c] + s, sep) == [[c] + pieces[0]] + pieces[1..]
  {
    assert ([c] + s)[1..] == s;
  }

  /** Split inverts Join when no piece holds the separator. */
  lemma {:induction false} SplitJoin(parts: seq<string>, sep: char)
    requires |parts| >= 1
    requires forall i :: 0 <= i < |parts| ==> sep !in parts[i]
    ensures Split(Join(parts, sep), sep) == parts
  {
    if |parts| == 1 {
      SplitNoSeparator(parts[0], sep);
    } else {
      SplitJoin(parts[1..], sep);
      SplitFirstPiece(parts[0], sep, Join(parts[1..], sep));
      assert [parts[0]] + parts[1..] == parts;
    }
  }
}
