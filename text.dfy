/** The Python string operations the scrapers apply to extracted text:
    `str.strip()`, `str.split(sep)` followed by `[-1]`, and `str.replace`. */
module Text {

  /** Python's `str.isspace` for one character: the characters `str.strip()`
      with no argument removes from both ends. */
  predicate IsSpace(c: char)
  {
    || ('\U{9}' <= c <= '\U{D}')
    || ('\U{1C}' <= c <= '\U{20}')
    || c == '\U{85}' || c == '\U{A0}' || c == '\U{1680}'
    || ('\U{2000}' <= c <= '\U{200A}')
    || c == '\U{2028}' || c == '\U{2029}' || c == '\U{202F}' || c == '\U{205F}' || c == '\U{3000}'
  }

  predicate AllSpace(s: string)
  {
    forall k :: 0 <= k < |s| ==> IsSpace(s[k])
  }

  /** `s.lstrip()`: drops the leading whitespace of `s`. */
  function StripLeft(s: string): (r: string)
    ensures |r| <= |s|
  {
    if s != [] && IsSpace(s[0]) then StripLeft(s[1..]) else s
  }

  /** `s.rstrip()`: drops the trailing whitespace of `s`. */
  function StripRight(s: string): (r: string)
    ensures |r| <= |s|
  {
    if s != [] && IsSpace(s[|s| - 1]) then StripRight(s[..|s| - 1]) else s
  }

  /** `s.strip()`. */
  function Strip(s: string): (r: string)
    ensures |r| <= |s|
  {
    StripLeft(StripRight(s))
  }

  /** `lstrip` keeps a suffix and removes only whitespace, up to the first
      non-whitespace character. */
  lemma {:induction false} StripLeftSpec(s: string)
    ensures var r := StripLeft(s);
      && r == s[|s| - |r|..] && AllSpace(s[..|s| - |r|]) && (r == [] || !IsSpace(r[0]))
  {
    if s != [] && IsSpace(s[0]) {
      StripLeftSpec(s[1..]);
      var r := StripLeft(s);
      assert s[..|s| - |r|] == [s[0]] + s[1..][..|s[1..]| - |r|];
    }
  }

  /** `rstrip` keeps a prefix and removes only whitespace, back to the last
      non-whitespace character. */
  lemma {:induction false} StripRightSpec(s: string)
    ensures var r := StripRight(s);
      && r == s[..|r|] && AllSpace(s[|r|..]) && (r == [] || !IsSpace(r[|r| - 1]))
  {
    if s != [] && IsSpace(s[|s| - 1]) {
      StripRightSpec(s[..|s| - 1]);
      var r := StripRight(s);
      assert s[|r|..] == s[..|s| - 1][|r|..] + [s[|s| - 1]];
    }
  }

  /** `s.strip()` is `s` with whitespace removed from both ends: what it
      removes is whitespace, and what it keeps is a contiguous piece of `s`
      that neither starts nor ends with whitespace. */
  lemma StripSpec(s: string)
    ensures var r := Strip(s); var i := |StripRight(s)| - |r|;
      && 0 <= i <= i + |r| <= |s| && r == s[i..i + |r|]
      && AllSpace(s[..i]) && AllSpace(s[i + |r|..])
      && (r == [] || (!IsSpace(r[0]) && !IsSpace(r[|r| - 1])))
  {
    var t := StripRight(s);
    var r := StripLeft(t);
    assert t == s[..|t|] && AllSpace(s[|t|..]) && (t == [] || !IsSpace(t[|t| - 1])) by {
      StripRightSpec(s);
    }
    assert r == t[|t| - |r|..] && AllSpace(t[..|t| - |r|]) && (r == [] || !IsSpace(r[0])) by {
      StripLeftSpec(t);
    }
    var i := |t| - |r|;
    assert s[..i] == t[..i];
    assert r == s[i..i + |r|];
    assert r != [] ==> r[|r| - 1] == t[|t| - 1];
  }

  /** `s.split(sep)`: the maximal `sep`-free pieces between separators. There is
      always at least one piece; an empty `s` gives one empty piece. */
  function Split(s: string, sep: char): (parts: seq<string>)
    ensures |parts| >= 1
    ensures forall k :: 0 <= k < |parts| ==> sep !in parts[k]
  {
    if s == [] then [[]]
    else
      var tail := Split(s[1..], sep);
      if s[0] == sep then [[]] + tail else [[s[0]] + tail[0]] + tail[1..]
  }

  /** `sep.join(parts)`, the inverse of `Split`. */
  function Join(parts: seq<string>, sep: char): string
    requires |parts| >= 1
  {
    if |parts| == 1 then parts[0] else parts[0] + [sep] + Join(parts[1..], sep)
  }

  lemma {:induction false} JoinSplit(s: string, sep: char)
    ensures Join(Split(s, sep), sep) == s
  {
    if s != [] {
      var tail := Split(s[1..], sep);
      JoinSplit(s[1..], sep);
      if s[0] != sep {
        if |tail| == 1 {
        } else {
          assert [s[0]] + tail[0] + [sep] + Join(tail[1..], sep) == [s[0]] + Join(tail, sep);
        }
      }
    }
  }

  lemma {:induction false} SplitJoin(parts: seq<string>, sep: char)
    requires |parts| >= 1
    requires forall k :: 0 <= k < |parts| ==> sep !in parts[k]
    ensures Split(Join(parts, sep), sep) == parts
    decreases |parts|, |parts[0]|
  {
    var s := Join(parts, sep);
    if parts[0] == [] {
      if |parts| > 1 {
        assert s == [sep] + Join(parts[1..], sep);
        assert s[1..] == Join(parts[1..], sep);
        SplitJoin(parts[1..], sep);
        assert parts == [[]] + parts[1..];
      }
    } else {
      var c := parts[0][0];
      var rest := [parts[0][1..]] + parts[1..];
      assert c != sep by { assert c == parts[0][0]; }
      assert forall k :: 0 <= k < |rest| ==> sep !in rest[k] by {
        forall k | 0 <= k < |rest| ensures sep !in rest[k] {
          if k == 0 {
            assert forall x :: x in parts[0][1..] ==> x in parts[0];
          } else {
            assert rest[k] == parts[k];
          }
        }
      }
      if |parts| == 1 {
        assert s == parts[0];
      } else {
        assert s == parts[0] + [sep] + Join(parts[1..], sep);
        assert Join(rest, sep) == parts[0][1..] + [sep] + Join(parts[1..], sep) by {
          assert rest[1..] == parts[1..];
        }
      }
      assert s == [c] + Join(rest, sep);
      assert s[1..] == Join(rest, sep);
      SplitJoin(rest, sep);
      assert [c] + rest[0] == parts[0];
      assert parts == [parts[0]] + rest[1..];
    }
  }

  /** `s.split(sep)[-1]` is the suffix of `s` after its last `sep`, or all of `s`
      when `sep` does not occur. */
  lemma {:induction false} LastPieceIsSuffix(s: string, sep: char)
    ensures var parts := Split(s, sep); var last := parts[|parts| - 1];
      && |last| <= |s| && last == s[|s| - |last|..] && sep !in last
      && (|parts| == 1 <==> |last| == |s|)
      && (|parts| > 1 ==> s[|s| - |last| - 1] == sep)
  {
    if s != [] {
      LastPieceIsSuffix(s[1..], sep);
      var tail := Split(s[1..], sep);
      var last := tail[|tail| - 1];
      if s[0] != sep && |tail| == 1 {
        assert Split(s, sep) == [[s[0]] + last];
        assert [s[0]] + last == s;
      } else {
        var parts := Split(s, sep);
        assert parts[|parts| - 1] == last;
        assert s[|s| - |last|..] == s[1..][|s[1..]| - |last|..];
      }
    }
  }

  /** The part of `s` after its last `sep` (all of `s` when there is none),
      computed from the end of `s`. */
  function LastPiece(s: string, sep: char): (r: string)
    ensures |r| <= |s|
  {
    if s == [] || s[|s| - 1] == sep then []
    else LastPiece(s[..|s| - 1], sep) + [s[|s| - 1]]
  }

  /** `LastPiece` is a `sep`-free suffix that is all of `s` or follows a `sep`. */
  lemma {:induction false} LastPieceSpec(s: string, sep: char)
    ensures var r := LastPiece(s, sep);
      && r == s[|s| - |r|..] && sep !in r
      && (|r| == |s| || s[|s| - |r| - 1] == sep)
  {
    if s != [] && s[|s| - 1] != sep {
      var s' := s[..|s| - 1];
      var c := s[|s| - 1];
      LastPieceSpec(s', sep);
      var r' := LastPiece(s', sep);
      var r := LastPiece(s, sep);
      assert r == r' + [c];
      assert s == s' + [c];
      assert s[|s| - |r|..] == s'[|s'| - |r'|..] + [c];
      assert sep !in r by {
        forall k | 0 <= k < |r| ensures r[k] != sep {
          if k < |r'| { assert r[k] == r'[k]; }
        }
      }
      if |r| != |s| {
        assert s[|s| - |r| - 1] == s'[|s'| - |r'| - 1];
      }
    }
  }

  /** `LastPiece` is `s.split(sep)[-1]`. */
  lemma LastPieceOfSplit(s: string, sep: char)
    ensures var parts := Split(s, sep); parts[|parts| - 1] == LastPiece(s, sep)
  {
    var parts := Split(s, sep);
    var a := parts[|parts| - 1];
    var b := LastPiece(s, sep);
    LastPieceIsSuffix(s, sep);
    LastPieceSpec(s, sep);
    if |a| < |b| {
      assert false;
    } else if |b| < |a| {
      assert false;
    }
  }

  /** Stripping the last piece gives a `sep`-free text that neither starts
      nor ends with whitespace. */
  lemma StrippedLastPiece(s: string, sep: char)
    ensures var d := Strip(LastPiece(s, sep));
      && sep !in d
      && (d == [] || (!IsSpace(d[0]) && !IsSpace(d[|d| - 1])))
  {
    var last := LastPiece(s, sep);
    var d := Strip(last);
    var i := |StripRight(last)| - |d|;
    assert sep !in last by {
      LastPieceSpec(s, sep);
    }
    assert && 0 <= i <= i + |d| <= |last| && d == last[i..i + |d|]
           && (d == [] || (!IsSpace(d[0]) && !IsSpace(d[|d| - 1]))) by {
      StripSpec(last);
    }
    forall k | 0 <= k < |d| ensures d[k] != sep {
      assert d[k] == last[i + k];
    }
  }

  /** `d` is what `.strip()` leaves of the part of `s` after its last `sep`:
      it lies in that part with only whitespace before and after it there. */
  ghost predicate StrippedAfterLast(s: string, sep: char, d: string)
  {
    exists j, i :: 0 <= j <= i <= i + |d| <= |s|
      && (j == 0 || s[j - 1] == sep) && sep !in s[j..]
      && AllSpace(s[j..i]) && s[i..i + |d|] == d && AllSpace(s[i + |d|..])
  }

  lemma StrippedLastPieceIsAfterLast(s: string, sep: char)
    ensures StrippedAfterLast(s, sep, Strip(LastPiece(s, sep)))
  {
    var last := LastPiece(s, sep);
    var d := Strip(last);
    var j := |s| - |last|;
    var i := |StripRight(last)| - |d|;
    assert last == s[j..] && sep !in last && (j == 0 || s[j - 1] == sep) by {
      LastPieceSpec(s, sep);
    }
    assert && 0 <= i <= i + |d| <= |last| && d == last[i..i + |d|]
           && AllSpace(last[..i]) && AllSpace(last[i + |d|..]) by {
      StripSpec(last);
    }
    SlicesOfSuffix(s, last, j, i, d);
    assert 0 <= j <= j + i <= j + i + |d| <= |s|
      && (j == 0 || s[j - 1] == sep) && sep !in s[j..]
      && AllSpace(s[j..j + i]) && s[j + i..j + i + |d|] == d && AllSpace(s[j + i + |d|..]);
  }

  /** The stretches of a suffix `last` of `s`, taken in `s`. */
  lemma SlicesOfSuffix(s: string, last: string, j: nat, i: nat, d: string)
    requires j + |last| == |s| && last == s[j..]
    requires i + |d| <= |last| && d == last[i..i + |d|]
    ensures s[j..j + i] == last[..i]
    ensures s[j + i..j + i + |d|] == d
    ensures s[j + i + |d|..] == last[i + |d|..]
  {
  }

  /** `s.replace(c, rep)` for a one-character pattern: every occurrence of `c` is
      replaced by `rep`. */
  function ReplaceChar(s: string, c: char, rep: string): (r: string)
    ensures c !in rep ==> c !in r
    ensures c !in s ==> r == s
  {
    if s == [] then []
    else (if s[0] == c then rep else [s[0]]) + ReplaceChar(s[1..], c, rep)
  }

  /** `ReplaceChar` works character by character: the replacement of a
      concatenation is the concatenation of the replacements. */
  lemma {:induction false} ReplaceCharAppend(s: string, t: string, c: char, rep: string)
    ensures ReplaceChar(s + t, c, rep) == ReplaceChar(s, c, rep) + ReplaceChar(t, c, rep)
    decreases |s|
  {
    if s == [] {
      assert s + t == t;
    } else {
      assert (s + t)[0] == s[0];
      assert (s + t)[1..] == s[1..] + t;
      ReplaceCharAppend(s[1..], t, c, rep);
    }
  }

  /** Each occurrence of `c` becomes `rep`, and every other character is kept
      where it is. */
  lemma ReplaceCharAt(s: string, x: char, t: string, c: char, rep: string)
    ensures ReplaceChar(s + [x] + t, c, rep)
         == ReplaceChar(s, c, rep) + (if x == c then rep else [x]) + ReplaceChar(t, c, rep)
  {
    ReplaceCharAppend(s + [x], t, c, rep);
    ReplaceCharAppend(s, [x], c, rep);
    assert [x][1..] == [];
  }
}
