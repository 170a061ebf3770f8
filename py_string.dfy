/**
 * The few Python `str` builtins the signal extractor relies on:
 * `startswith`, `split`, `join` and `replace(sep, '')`.
 * Python scans for a separator left to right and never lets two occurrences
 * overlap; every definition here follows that scan.
 */
module PyString {

  /** `s.startswith(prefix)` */
  predicate StartsWith(s: string, prefix: string)
  {
    |prefix| <= |s| && s[..|prefix|] == prefix
  }

  /** The window of `s` starting at `i` equals `sep`. */
  predicate OccursAt(s: string, sep: string, i: int)
  {
    0 <= i && i + |sep| <= |s| && s[i..i + |sep|] == sep
  }

  /** `sep in s` */
  ghost predicate Contains(s: string, sep: string)
  {
    exists i :: OccursAt(s, sep, i)
  }

  /** `s.replace(sep, '')` for a non-empty `sep`: one left-to-right pass that drops
      every occurrence it meets. */
  function RemoveAll(s: string, sep: string): string
    requires |sep| > 0
    decreases |s|
  {
    if |s| < |sep| then s
    else if s[..|sep|] == sep then RemoveAll(s[|sep|..], sep)
    else [s[0]] + RemoveAll(s[1..], sep)
  }

  /** `s.split(sep)` for a non-empty `sep` (Python rejects an empty one). */
  function Split(s: string, sep: string): (pieces: seq<string>)
    requires |sep| > 0
    ensures |pieces| >= 1
    decreases |s|
  {
    if |s| < |sep| then [s]
    else if s[..|sep|] == sep then [""] + Split(s[|sep|..], sep)
    else
      var rest := Split(s[1..], sep);
      [[s[0]] + rest[0]] + rest[1..]
  }

  /** `sep.join(pieces)` */
  function Join(pieces: seq<string>, sep: string): string
  {
    if |pieces| == 0 then ""
    else if |pieces| == 1 then pieces[0]
    else pieces[0] + sep + Join(pieces[1..], sep)
  }

  /** Prepending a character to the first piece prepends it to the joined string. */
  lemma JoinConsHead(c: char, pieces: seq<string>, sep: string)
    requires |pieces| >= 1
    ensures Join([[c] + pieces[0]] + pieces[1..], sep) == [c] + Join(pieces, sep)
  {
    var p := [[c] + pieces[0]] + pieces[1..];
    assert p[1..] == pieces[1..];
  }

  /** Splitting and joining with the same separator gives the string back. */
  lemma {:induction false} SplitJoin(s: string, sep: string)
    requires |sep| > 0
    ensures Join(Split(s, sep), sep) == s
    decreases |s|
  {
    if |s| < |sep| {
    } else if s[..|sep|] == sep {
      var rest := Split(s[|sep|..], sep);
      SplitJoin(s[|sep|..], sep);
      assert ([""] + rest)[1..] == rest;
      assert s == s[..|sep|] + s[|sep|..];
    } else {
      var rest := Split(s[1..], sep);
      SplitJoin(s[1..], sep);
      JoinConsHead(s[0], rest, sep);
      assert s == [s[0]] + s[1..];
    }
  }

  /** `s.replace(sep, '')` is `''.join(s.split(sep))`: removal keeps exactly the
      text between the occurrences that `split` finds. */
  lemma {:induction false} RemoveAllIsJoinOfSplit(s: string, sep: string)
    requires |sep| > 0
    ensures RemoveAll(s, sep) == Join(Split(s, sep), "")
    decreases |s|
  {
    if |s| < |sep| {
    } else if s[..|sep|] == sep {
      var rest := Split(s[|sep|..], sep);
      RemoveAllIsJoinOfSplit(s[|sep|..], sep);
      assert ([""] + rest)[1..] == rest;
    } else {
      var rest := Split(s[1..], sep);
      RemoveAllIsJoinOfSplit(s[1..], sep);
      JoinConsHead(s[0], rest, "");
    }
  }

  /** The first piece of a split is a prefix of the string. */
  lemma {:induction false} SplitHeadIsPrefix(s: string, sep: string)
    requires |sep| > 0
    ensures |Split(s, sep)[0]| <= |s| && s[..|Split(s, sep)[0]|] == Split(s, sep)[0]
    decreases |s|
  {
    if |s| < |sep| {
    } else if s[..|sep|] == sep {
    } else {
      SplitHeadIsPrefix(s[1..], sep);
      var h := Split(s[1..], sep)[0];
      assert s[..1 + |h|] == [s[0]] + s[1..][..|h|];
    }
  }

  /** A window of `[c] + t` that starts after `c` is a window of `t`. */
  lemma OccursAfterHead(c: char, t: string, sep: string, i: int)
    requires 1 <= i && OccursAt([c] + t, sep, i)
    ensures OccursAt(t, sep, i - 1)
  {
    assert ([c] + t)[i..i + |sep|] == t[i - 1..i - 1 + |sep|];
  }

  /** No piece that `split` returns contains the separator: every occurrence was cut. */
  lemma {:induction false} SplitPiecesAreSeparatorFree(s: string, sep: string)
    requires |sep| > 0
    ensures forall k :: 0 <= k < |Split(s, sep)| ==> !Contains(Split(s, sep)[k], sep)
    decreases |s|
  {
    var pieces := Split(s, sep);
    if |s| < |sep| {
      assert pieces == [s];
      forall i ensures !OccursAt(s, sep, i) { }
    } else if s[..|sep|] == sep {
      var rest := Split(s[|sep|..], sep);
      SplitPiecesAreSeparatorFree(s[|sep|..], sep);
      assert pieces == [""] + rest;
      assert forall i :: !OccursAt("", sep, i);
    } else {
      var rest := Split(s[1..], sep);
      SplitPiecesAreSeparatorFree(s[1..], sep);
      SplitHeadIsPrefix(s[1..], sep);
      var head := [s[0]] + rest[0];
      assert pieces == [head] + rest[1..];
      assert head == s[..|head|];
      assert !OccursAt(head, sep, 0) by {
        if |sep| <= |head| {
          assert head[..|sep|] == s[..|sep|];
        }
      }
      forall i | 1 <= i && OccursAt(head, sep, i)
        ensures OccursAt(rest[0], sep, i - 1)
      {
        OccursAfterHead(s[0], rest[0], sep, i);
      }
      assert !Contains(head, sep);
    }
  }

  /** A string without the separator is left as it is by `replace(sep, '')`. */
  lemma {:induction false} RemoveAllWithoutSeparator(s: string, sep: string)
    requires |sep| > 0
    requires !Contains(s, sep)
    ensures RemoveAll(s, sep) == s
    decreases |s|
  {
    if |s| >= |sep| {
      assert !OccursAt(s, sep, 0);
      assert s == [s[0]] + s[1..];
      forall i | OccursAt(s[1..], sep, i)
        ensures OccursAt(s, sep, i + 1)
      {
        assert s[1..][i..i + |sep|] == s[i + 1..i + 1 + |sep|];
      }
      RemoveAllWithoutSeparator(s[1..], sep);
    }
  }

  /** The pass is single: what remains can contain a new occurrence formed by the
      text on both sides of a removed one. */
  lemma RemoveAllIsSinglePass()
    ensures RemoveAll("ChrCChrhr", "Chr") == "Chr"
  {
    assert "ChrCChrhr"[..3] == "Chr";
    assert "ChrCChrhr"[3..] == "CChrhr";
    assert "CChrhr"[..3][1] != "Chr"[1];
    assert "CChrhr"[1..] == "Chrhr";
    assert "Chrhr"[..3] == "Chr";
    assert "Chrhr"[3..] == "hr";
  }
}
