/**
 * The JavaScript string operations the LPS parser relies on, on strings of code
 * points: `trim`, `startsWith`/`endsWith`, `includes`, `split` by a non-empty
 * separator string, `join`, and `split(/\r?\n/)`.
 */
module LpsText {
  import opened Options

  /** The WhiteSpace and LineTerminator code points of ECMAScript, which `trim` removes. */
  predicate IsSpace(c: char)
  {
    c in Whitespace || '\U{2000}' <= c <= '\U{200A}'
  }

  /** All of them except the range U+2000 to U+200A. */
  const Whitespace: set<char> := {'\t', '\n', '\U{000B}', '\U{000C}', '\r', ' ', '\U{00A0}', '\U{1680}',
                                  '\U{2028}', '\U{2029}', '\U{202F}', '\U{205F}', '\U{3000}', '\U{FEFF}'}

  /** Drops the longest all-whitespace prefix. */
  function TrimStart(s: string): (r: string)
    ensures |r| <= |s| && r == s[|s| - |r|..]
    ensures forall i :: 0 <= i < |s| - |r| ==> IsSpace(s[i])
    ensures r == [] || !IsSpace(r[0])
  {
    if |s| > 0 && IsSpace(s[0]) then TrimStart(s[1..]) else s
  }

  /** Drops the longest all-whitespace suffix. */
  function TrimEnd(s: string): (r: string)
    ensures |r| <= |s| && r == s[..|r|]
    ensures forall i :: |r| <= i < |s| ==> IsSpace(s[i])
    ensures r == [] || !IsSpace(r[|r| - 1])
  {
    if |s| > 0 && IsSpace(s[|s| - 1]) then TrimEnd(s[..|s| - 1]) else s
  }

  /** `String.prototype.trim`. */
  function Trim(s: string): (r: string)
    ensures |r| <= |s|
    ensures r == [] || (!IsSpace(r[0]) && !IsSpace(r[|r| - 1]))
    ensures AllSpace(s) <==> r == []
    // `r` is the infix of `s` left once whitespace is dropped from both ends
    ensures exists i :: 0 <= i <= |s| - |r| && r == s[i..][..|r|] && AllSpace(s[..i]) && AllSpace(s[i + |r|..])
  {
    var t := TrimStart(s);
    var r := TrimEnd(t);
    TrimmedEnds(s, t, r);
    TrimmedIsInfix(s, t, r);
    r
  }

  /** Every character of `s` is whitespace. */
  predicate AllSpace(s: string)
  {
    forall i :: 0 <= i < |s| ==> IsSpace(s[i])
  }

  /** The proof of `Trim`'s clauses about the ends of the result. */
  lemma TrimmedEnds(s: string, t: string, r: string)
    requires t == TrimStart(s) && r == TrimEnd(t)
    ensures r == [] || (!IsSpace(r[0]) && !IsSpace(r[|r| - 1]))
    ensures AllSpace(s) <==> r == []
  {
    if r != [] {
      assert r[0] == t[0];
      assert !AllSpace(s) by {
        assert t[0] == s[|s| - |t|];
      }
    } else if t == [] {
      assert AllSpace(s);
    }
  }

  /** The proof of `Trim`'s last clause: the text left between the trimmed ends. */
  lemma TrimmedIsInfix(s: string, t: string, r: string)
    requires t == TrimStart(s) && r == TrimEnd(t)
    ensures exists i :: 0 <= i <= |s| - |r| && r == s[i..][..|r|] && AllSpace(s[..i]) && AllSpace(s[i + |r|..])
  {
    var i := |s| - |t|;
    assert t == s[i..];
    assert AllSpace(s[..i]);
    assert AllSpace(s[i + |r|..]) by {
      forall k | i + |r| <= k < |s|
        ensures IsSpace(s[k])
      {
        assert s[k] == t[k - i];
      }
    }
    assert r == s[i..][..|r|];
  }

  /** `startsWith`: `s` is `prefix` followed by something. */
  predicate StartsWith(s: string, prefix: string): (b: bool)
    ensures b <==> |prefix| <= |s| && s == prefix + s[|prefix|..]
  {
    |prefix| <= |s| && s[..|prefix|] == prefix
  }

  /** `endsWith`: `s` is something followed by `suffix`. */
  predicate EndsWith(s: string, suffix: string): (b: bool)
    ensures b <==> |suffix| <= |s| && s == s[..|s| - |suffix|] + suffix
  {
    |suffix| <= |s| && s[|s| - |suffix|..] == suffix
  }

  /** `sep` occurs in `s` starting at position `i`. */
  predicate OccursAt(s: string, sep: string, i: nat)
  {
    i + |sep| <= |s| && s[i..i + |sep|] == sep
  }

  /** `indexOf`: the position where `sep` first occurs (see `IndexOfIsFirst`). */
  function IndexOf(s: string, sep: string): (r: Option<nat>)
    requires |sep| > 0
    ensures r.Some? ==> OccursAt(s, sep, r.value)
    decreases |s|
  {
    if |s| < |sep| then None
    else if s[..|sep|] == sep then Some(0)
    else
      match IndexOf(s[1..], sep)
      case None => None
      case Some(k) =>
        assert s[1..][k..k + |sep|] == s[k + 1..k + 1 + |sep|];
        Some(k + 1)
  }

  /** `IndexOf` finds the first occurrence, and finds nothing only when there is none. */
  lemma {:induction false} IndexOfIsFirst(s: string, sep: string)
    requires |sep| > 0
    ensures IndexOf(s, sep).Some? ==> forall j :: 0 <= j < IndexOf(s, sep).value ==> !OccursAt(s, sep, j)
    ensures IndexOf(s, sep).None? ==> forall j :: 0 <= j <= |s| ==> !OccursAt(s, sep, j)
    decreases |s|
  {
    if |s| >= |sep| && s[..|sep|] != sep {
      IndexOfIsFirst(s[1..], sep);
      forall j | 1 <= j <= |s| && OccursAt(s, sep, j) ensures OccursAt(s[1..], sep, j - 1) {
        assert s[1..][j - 1..j - 1 + |sep|] == s[j..j + |sep|];
      }
    }
  }

  /** `includes`: `sep` occurs somewhere in `s`. */
  predicate Includes(s: string, sep: string): (b: bool)
    requires |sep| > 0
    ensures b ==> |sep| <= |s|
  {
    IndexOf(s, sep).Some?
  }

  /** `sep` is included exactly when it occurs at some position. */
  lemma IncludesIffOccurs(s: string, sep: string)
    requires |sep| > 0
    ensures Includes(s, sep) <==> exists i :: 0 <= i <= |s| && OccursAt(s, sep, i)
  {
    IndexOfIsFirst(s, sep);
  }

  /** `split(sep)` for a non-empty separator string. */
  function Split(s: string, sep: string): (r: seq<string>)
    requires |sep| > 0
    ensures |r| >= 1
    decreases |s|
  {
    match IndexOf(s, sep)
    case None => [s]
    case Some(i) => [s[..i]] + Split(s[i + |sep|..], sep)
  }

  /** `join(sep)`: the parts in order, with `sep` between neighbours. */
  function Join(parts: seq<string>, sep: string): (r: string)
    ensures |parts| == 0 ==> r == ""
    ensures |parts| > 0 ==> StartsWith(r, parts[0]) && EndsWith(r, parts[|parts| - 1])
    ensures |parts| > 1 ==> OccursAt(r, sep, |parts[0]|)
  {
    if |parts| == 0 then ""
    else if |parts| == 1 then parts[0]
    else
      var rest := Join(parts[1..], sep);
      assert parts[1..][|parts[1..]| - 1] == parts[|parts| - 1];
      assert (parts[0] + sep + rest)[|parts[0] + sep + rest| - |rest|..] == rest;
      parts[0] + sep + rest
  }

  /** The text before the first `sep`, or all of `s`. */
  function Before(s: string, sep: string): (r: string)
    requires |sep| > 0
    ensures StartsWith(s, r)
    ensures !Includes(r, sep)
  {
    match IndexOf(s, sep)
    case None => s
    case Some(i) =>
      assert !Includes(s[..i], sep) by {
        IndexOfIsFirst(s, sep);
        var r := IndexOf(s[..i], sep);
        if r.Some? {
          var j := r.value;
          assert OccursAt(s[..i], sep, j);
          assert j + |sep| <= i;
          assert s[..i][j..j + |sep|] == s[j..j + |sep|];
          assert OccursAt(s, sep, j) && j < i;
          assert false;
        }
      }
      s[..i]
  }

  /** The text after the first `sep`, or the empty string when there is none. */
  function After(s: string, sep: string): (r: string)
    requires |sep| > 0
    ensures Includes(s, sep) ==> EndsWith(s, r) && |r| <= |s| - |sep|
    ensures !Includes(s, sep) ==> r == ""
  {
    match IndexOf(s, sep)
    case None => ""
    case Some(i) => s[i + |sep|..]
  }

  /** `split` then `join` with the same separator gives back the string. */
  lemma {:induction false} JoinSplit(s: string, sep: string)
    requires |sep| > 0
    ensures Join(Split(s, sep), sep) == s
    decreases |s|
  {
    var r := IndexOf(s, sep);
    if r.Some? {
      var i := r.value;
      var rest := s[i + |sep|..];
      var tail := Split(rest, sep);
      assert Split(s, sep) == [s[..i]] + tail;
      JoinSplit(rest, sep);
      JoinCons(s[..i], tail, sep);
      Recompose(s, i, sep);
    }
  }

  /** A string is the text before an occurrence of `sep`, `sep`, and the text after it. */
  lemma Recompose(s: string, i: nat, sep: string)
    requires OccursAt(s, sep, i)
    ensures s == s[..i] + sep + s[i + |sep|..]
  {
    assert s[..i] + sep == s[..i + |sep|];
  }

  lemma JoinCons(head: string, tail: seq<string>, sep: string)
    requires |tail| >= 1
    ensures Join([head] + tail, sep) == head + sep + Join(tail, sep)
  {
    assert ([head] + tail)[1..] == tail;
  }

  /** The first piece of `split` is the text before the first separator. */
  lemma SplitHead(s: string, sep: string)
    requires |sep| > 0
    ensures Split(s, sep)[0] == Before(s, sep)
  {
  }

  /** Re-joining every piece but the first gives the text after the first separator. */
  lemma SplitTail(s: string, sep: string)
    requires |sep| > 0
    ensures Join(Split(s, sep)[1..], sep) == After(s, sep)
  {
    var r := IndexOf(s, sep);
    if r.Some? {
      var rest := s[r.value + |sep|..];
      assert After(s, sep) == rest;
      assert Split(s, sep) == [s[..r.value]] + Split(rest, sep);
      assert Split(s, sep)[1..] == Split(rest, sep);
      JoinSplit(rest, sep);
    } else {
      assert Split(s, sep) == [s];
      assert After(s, sep) == "";
    }
  }

  /** No piece of `split` contains the separator. */
  lemma {:induction false} SplitPiecesAreFree(s: string, sep: string)
    requires |sep| > 0
    ensures forall k :: 0 <= k < |Split(s, sep)| ==> !Includes(Split(s, sep)[k], sep)
    decreases |s|
  {
    match IndexOf(s, sep)
    case None =>
      assert Split(s, sep) == [s];
    case Some(i) =>
      var rest := s[i + |sep|..];
      var pieces := Split(s, sep);
      var tail := Split(rest, sep);
      SplitPiecesAreFree(rest, sep);
      assert pieces == [s[..i]] + tail;
      assert !Includes(pieces[0], sep) by {
        assert pieces[0] == Before(s, sep);
      }
      forall k | 1 <= k < |pieces| ensures !Includes(pieces[k], sep) {
        assert pieces[k] == tail[k - 1];
      }
  }

  /**
   * `split(/\r?\n/)`: the pieces between line feeds, each but the last without
   * one trailing carriage return.
   */
  function SplitLines(s: string): (r: seq<string>)
    ensures |r| == |Split(s, "\n")|
    ensures r[|r| - 1] == Split(s, "\n")[|r| - 1]
  {
    var pieces := Split(s, "\n");
    seq(|pieces|, k requires 0 <= k < |pieces| =>
      if k < |pieces| - 1 && EndsWith(pieces[k], "\r") then pieces[k][..|pieces[k]| - 1] else pieces[k])
  }

  /** Each line is its piece of the text cut at line feeds, less a final
      carriage return, and no line holds a line feed. */
  lemma SplitLinesPieces(s: string)
    ensures var r, pieces := SplitLines(s), Split(s, "\n");
            && (forall k :: 0 <= k < |r| - 1 ==>
                  pieces[k] == if EndsWith(pieces[k], "\r") then r[k] + "\r" else r[k])
            && forall k :: 0 <= k < |r| ==> !Includes(r[k], "\n")
  {
    var r, pieces := SplitLines(s), Split(s, "\n");
    SplitPiecesAreFree(s, "\n");
    assert forall k :: 0 <= k < |r| ==> StartsWith(pieces[k], r[k]);
    forall k | 0 <= k < |r|
      ensures !Includes(r[k], "\n")
    {
      PrefixIsFree(pieces[k], r[k], "\n");
    }
  }

  /** A prefix of a string without `sep` has no `sep` either. */
  lemma PrefixIsFree(s: string, p: string, sep: string)
    requires |sep| > 0 && StartsWith(s, p) && !Includes(s, sep)
    ensures !Includes(p, sep)
  {
    IndexOfIsFirst(s, sep);
    assert IndexOf(s, sep).None?;
    forall j | 0 <= j <= |p|
      ensures !OccursAt(p, sep, j)
    {
      assert !OccursAt(s, sep, j);
      if j + |sep| <= |p| {
        assert p[j..j + |sep|] == s[j..j + |sep|];
      }
    }
  }

  /** A carriage return dropped by `SplitLines` would have been trimmed anyway. */
  lemma TrimIgnoresCarriageReturn(piece: string)
    requires EndsWith(piece, "\r")
    ensures Trim(piece[..|piece| - 1]) == Trim(piece)
  {
    var p := piece[..|piece| - 1];
    assert piece == p + ['\r'];
    TrimEndOfSpace(p, '\r');
    TrimStartOfSpaced(p, '\r');
  }

  lemma {:induction false} TrimEndOfSpace(s: string, c: char)
    requires IsSpace(c)
    ensures TrimEnd(s + [c]) == TrimEnd(s)
  {
    assert (s + [c])[..|s + [c]| - 1] == s;
  }

  lemma {:induction false} TrimStartOfSpaced(s: string, c: char)
    requires IsSpace(c)
    ensures TrimEnd(TrimStart(s + [c])) == TrimEnd(TrimStart(s))
    decreases |s|
  {
    if |s| > 0 && IsSpace(s[0]) {
      assert (s + [c])[1..] == s[1..] + [c];
      TrimStartOfSpaced(s[1..], c);
    } else if |s| > 0 {
      assert TrimStart(s + [c]) == s + [c];
      TrimEndOfSpace(s, c);
    } else {
      assert TrimStart([c]) == [];
    }
  }
}
