/** The Rust `str` operations the command helpers rely on, over `seq<char>`:
    the prefix test of `strip_prefix`, `contains`, `replace`, `split(..).count()`, `rsplit_once`
    and (ASCII) `to_lowercase`. */
module Strings {
  import opened Wrappers

  /** `p` is a prefix of `s`: the test `str::strip_prefix` makes before it
      cuts the prefix off. */
  predicate StartsWith(s: string, p: string) {
    |p| <= |s| && s[..|p|] == p
  }

  /** The prefix test holds exactly when `s` is `p` followed by some rest. */
  lemma StartsWithIsPrefix(s: string, p: string)
    ensures StartsWith(s, p) <==> exists rest :: s == p + rest
  {
    if StartsWith(s, p) {
      assert s == p + s[|p|..];
    }
    if exists rest :: s == p + rest {
      var rest :| s == p + rest;
      assert s[..|p|] == p;
    }
  }

  /** `pat` occurs in `s` starting at index `i`. */
  ghost predicate OccursAt(s: string, pat: string, i: int) {
    0 <= i && i + |pat| <= |s| && s[i..i + |pat|] == pat
  }

  /** Shifting a match one character to the right of a dropped head. */
  lemma OccursAtTail(s: string, pat: string, i: int)
    requires |s| > 0 && i >= 0
    ensures OccursAt(s[1..], pat, i) <==> OccursAt(s, pat, i + 1)
  {
    if 0 <= i && i + |pat| <= |s[1..]| {
      assert s[1..][i..i + |pat|] == s[i + 1..i + 1 + |pat|];
    }
  }

  /** A match either starts at index 0 or lies wholly in the tail. */
  lemma OccursSomewhere(s: string, pat: string)
    ensures (exists i :: OccursAt(s, pat, i)) <==>
            StartsWith(s, pat) || (|s| > 0 && exists i :: OccursAt(s[1..], pat, i))
  {
    if exists i :: OccursAt(s, pat, i) {
      var i :| OccursAt(s, pat, i);
      if i != 0 {
        OccursAtTail(s, pat, i - 1);
      }
    }
    if |s| > 0 && exists i :: OccursAt(s[1..], pat, i) {
      var i :| OccursAt(s[1..], pat, i);
      OccursAtTail(s, pat, i);
    }
    if StartsWith(s, pat) {
      assert OccursAt(s, pat, 0);
    }
  }

  /** `str::contains` with a string pattern, scanning left to right. */
  function Contains(s: string, pat: string): (b: bool)
    ensures b <==> exists i :: OccursAt(s, pat, i)
    decreases |s|
  {
    OccursSomewhere(s, pat);
    StartsWith(s, pat) || (|s| > 0 && Contains(s[1..], pat))
  }

  /** Containment is transitive: a pattern inside a substring is inside the whole. */
  lemma ContainsTransitive(a: string, b: string, c: string)
    requires Contains(a, b) && Contains(b, c)
    ensures Contains(a, c)
  {
    var i :| OccursAt(a, b, i);
    var j :| OccursAt(b, c, j);
    assert a[i + j..i + j + |c|] == c by {
      forall k | 0 <= k < |c|
        ensures a[i + j..i + j + |c|][k] == c[k]
      {
        assert b[j..j + |c|][k] == c[k];
        assert a[i..i + |b|][j + k] == b[j + k];
      }
    }
    assert OccursAt(a, c, i + j);
  }

  /** `str::replace`: every non-overlapping occurrence of `pat`, found left to
      right, is replaced by `rep`. Rust also accepts an empty pattern; the
      command helpers only ever pass non-empty ones. */
  function Replace(s: string, pat: string, rep: string): (r: string)
    requires |pat| > 0
    ensures rep == pat ==> r == s
    decreases |s|
  {
    assert |s| > 0 ==> s == [s[0]] + s[1..];
    assert StartsWith(s, pat) ==> s == pat + s[|pat|..];
    if StartsWith(s, pat) then rep + Replace(s[|pat|..], pat, rep)
    else if |s| == 0 then []
    else [s[0]] + Replace(s[1..], pat, rep)
  }

  /** A pattern that does not occur leaves the string unchanged. */
  lemma {:induction false} ReplaceAbsent(s: string, pat: string, rep: string)
    requires |pat| > 0 && !Contains(s, pat)
    ensures Replace(s, pat, rep) == s
    decreases |s|
  {
    if |s| > 0 {
      assert !Contains(s[1..], pat);
      ReplaceAbsent(s[1..], pat, rep);
    }
  }

  /** `str::split` with a string separator: the pieces between the
      non-overlapping occurrences of `sep`, found left to right. Like Rust, an
      empty string still yields one (empty) piece. */
  function Split(s: string, sep: string): (parts: seq<string>)
    requires |sep| > 0
    ensures |parts| >= 1
    decreases |s|
  {
    if StartsWith(s, sep) then [[]] + Split(s[|sep|..], sep)
    else if |s| == 0 then [[]]
    else
      var rest := Split(s[1..], sep);
      [[s[0]] + rest[0]] + rest[1..]
  }

  /** The pieces of `parts` with `sep` between consecutive ones (`join`). */
  function Join(parts: seq<string>, sep: string): string
    decreases |parts|
  {
    if |parts| == 0 then []
    else if |parts| == 1 then parts[0]
    else parts[0] + sep + Join(parts[1..], sep)
  }

  /** Replacing is splitting at the pattern and joining with the replacement. */
  lemma {:induction false} ReplaceIsSplitJoin(s: string, pat: string, rep: string)
    requires |pat| > 0
    ensures Replace(s, pat, rep) == Join(Split(s, pat), rep)
    decreases |s|
  {
    if StartsWith(s, pat) {
      var t := s[|pat|..];
      var tail := Split(t, pat);
      ReplaceIsSplitJoin(t, pat, rep);
      var parts := [[]] + tail;
      assert Split(s, pat) == parts;
      assert Replace(s, pat, rep) == rep + Replace(t, pat, rep);
      assert parts[1..] == tail;
      assert Join(parts, rep) == [] + rep + Join(tail, rep);
    } else if |s| > 0 {
      var t := s[1..];
      var tail := Split(t, pat);
      ReplaceIsSplitJoin(t, pat, rep);
      var parts := [[s[0]] + tail[0]] + tail[1..];
      assert Split(s, pat) == parts;
      assert Replace(s, pat, rep) == [s[0]] + Join(tail, rep);
      if |tail| > 1 {
        assert parts[1..] == tail[1..];
        assert Join(tail, rep) == tail[0] + rep + Join(tail[1..], rep);
        assert Join(parts, rep) == ([s[0]] + tail[0]) + rep + Join(tail[1..], rep);
      }
    }
  }

  /** Splitting at a pattern and joining with that same pattern gives the
      original string back. */
  lemma {:induction false} SplitJoinRoundTrip(s: string, sep: string)
    requires |sep| > 0
    ensures Join(Split(s, sep), sep) == s
    decreases |s|
  {
    ReplaceIsSplitJoin(s, sep, sep);
  }

  /** A joined list starts with its first piece. */
  lemma JoinStartsWithFirst(parts: seq<string>, sep: string)
    requires |parts| > 0
    ensures StartsWith(Join(parts, sep), parts[0])
  {
    if |parts| > 1 {
      assert Join(parts, sep) == parts[0] + (sep + Join(parts[1..], sep));
    }
  }

  /** The first piece of a split is a prefix of the string. */
  lemma SplitFirstIsPrefix(s: string, sep: string)
    requires |sep| > 0
    ensures StartsWith(s, Split(s, sep)[0])
  {
    JoinStartsWithFirst(Split(s, sep), sep);
    SplitJoinRoundTrip(s, sep);
  }

  /** A character that does not start a separator, followed by a prefix of
      the rest that holds no separator, holds no separator either. */
  lemma PrefixPieceFree(s: string, sep: string, piece: string)
    requires |sep| > 0 && |s| > 0 && !StartsWith(s, sep)
    requires StartsWith(s[1..], piece) && !Contains(piece, sep)
    ensures !Contains([s[0]] + piece, sep)
  {
    var first := [s[0]] + piece;
    assert first[1..] == piece;
    assert first == s[..|first|] by {
      assert s == [s[0]] + s[1..];
    }
    forall i | 0 <= i
      ensures !OccursAt(first, sep, i)
    {
      if i == 0 && |sep| <= |first| {
        assert first[..|sep|] == s[..|sep|];
      } else if i > 0 {
        OccursAtTail(first, sep, i - 1);
      }
    }
  }

  /** No piece of a split holds the separator: `split` cuts at every
      occurrence, not only at some of them. */
  lemma {:induction false} SplitPiecesFree(s: string, sep: string)
    requires |sep| > 0
    ensures forall k :: 0 <= k < |Split(s, sep)| ==> !Contains(Split(s, sep)[k], sep)
    decreases |s|
  {
    var parts := Split(s, sep);
    if StartsWith(s, sep) {
      var tail := Split(s[|sep|..], sep);
      SplitPiecesFree(s[|sep|..], sep);
      assert parts == [[]] + tail;
      assert !Contains([], sep);
      assert forall k :: 1 <= k < |parts| ==> parts[k] == tail[k - 1];
    } else if |s| > 0 {
      var rest := Split(s[1..], sep);
      SplitPiecesFree(s[1..], sep);
      assert parts == [[s[0]] + rest[0]] + rest[1..];
      SplitFirstIsPrefix(s[1..], sep);
      PrefixPieceFree(s, sep, rest[0]);
      assert forall k :: 1 <= k < |parts| ==> parts[k] == rest[k];
    }
  }

  /** Splitting at a single character yields one more piece than the number of
      occurrences of that character (so `"".split(';').count() == 1`). */
  lemma {:induction false} SplitCount(s: string, c: char)
    ensures |Split(s, [c])| == multiset(s)[c] + 1
    decreases |s|
  {
    if |s| > 0 {
      SplitCount(s[1..], c);
      assert s == [s[0]] + s[1..];
      assert StartsWith(s, [c]) <==> s[0] == c;
      if s[0] == c {
        assert s[1..] == s[|[c]|..];
      }
    }
  }

  /** Replacing an occurring pattern puts the replacement into the result. */
  lemma {:induction false} ReplaceInsertsRep(s: string, pat: string, rep: string)
    requires |pat| > 0 && Contains(s, pat)
    ensures Contains(Replace(s, pat, rep), rep)
    decreases |s|
  {
    var r := Replace(s, pat, rep);
    if StartsWith(s, pat) {
      assert OccursAt(r, rep, 0);
    } else {
      var i :| OccursAt(s, pat, i);
      assert i != 0;
      OccursAtTail(s, pat, i - 1);
      ReplaceInsertsRep(s[1..], pat, rep);
      var t := Replace(s[1..], pat, rep);
      var j :| OccursAt(t, rep, j);
      assert r == [s[0]] + t;
      assert r[1..] == t;
      OccursAtTail(r, rep, j);
    }
  }

  /** The last split of `s` at `c` (`str::rsplit_once`): the text before and
      after the last occurrence of `c`, or `None` when `c` does not occur. */
  function RSplitOnce(s: string, c: char): (r: Option<(string, string)>)
    ensures r.None? <==> c !in s
    ensures r.Some? ==> s == r.value.0 + [c] + r.value.1 && c !in r.value.1
    decreases |s|
  {
    if |s| == 0 then None
    else
      var last := s[|s| - 1];
      assert s == s[..|s| - 1] + [last];
      if last == c then Some((s[..|s| - 1], []))
      else
        match RSplitOnce(s[..|s| - 1], c)
        case None => None
        case Some((before, after)) => Some((before, after + [last]))
  }

  /** ASCII lower-casing of one character. */
  function LowerChar(ch: char): char {
    if 'A' <= ch <= 'Z' then (ch as int + 32) as char else ch
  }

  /** `str::to_lowercase`, restricted to the ASCII letters. */
  function ToLower(s: string): (r: string)
    ensures |r| == |s|
    decreases |s|
  {
    if |s| == 0 then [] else [LowerChar(s[0])] + ToLower(s[1..])
  }

  /** Lower-casing works character by character: an upper-case ASCII letter
      becomes its lower-case letter, 32 code points on, and every other
      character is kept. */
  lemma {:induction false} ToLowerEachChar(s: string)
    ensures forall i :: 0 <= i < |s| ==>
      ToLower(s)[i] == if 'A' <= s[i] <= 'Z' then (s[i] as int + 32) as char else s[i]
    decreases |s|
  {
    if |s| > 0 {
      ToLowerEachChar(s[1..]);
      assert forall i :: 1 <= i < |s| ==> ToLower(s)[i] == ToLower(s[1..])[i - 1] && s[1..][i - 1] == s[i];
    }
  }

  /** Lower-casing keeps every character that is not an upper-case letter in
      place, and so never changes how many `;` the string holds. */
  lemma {:induction false} ToLowerKeepsNonLetters(s: string, c: char)
    requires !('A' <= c <= 'Z') && !('a' <= c <= 'z')
    ensures multiset(ToLower(s))[c] == multiset(s)[c]
    decreases |s|
  {
    if |s| > 0 {
      var head, tail := s[0], s[1..];
      ToLowerKeepsNonLetters(tail, c);
      assert s == [head] + tail;
      assert ToLower(s) == [LowerChar(head)] + ToLower(tail);
      assert LowerChar(head) == c <==> head == c;
    }
  }
}
