/** The operations on Rust's `str` that the device-registry parser and the
    configuration reader rely on: `contains`, `split`, `lines` and `trim`.
    Text is a sequence of characters; a separator is a non-empty sequence. */
module Strings {
  import opened Wrappers

  /** `pat` occurs in `s` starting at index `i`. */
  ghost predicate OccursAt<T>(s: seq<T>, pat: seq<T>, i: int) {
    0 <= i && i + |pat| <= |s| && s[i..i + |pat|] == pat
  }

  lemma OccursAtTail<T>(s: seq<T>, pat: seq<T>, j: nat)
    requires |s| > 0
    ensures OccursAt(s, pat, j + 1) <==> OccursAt(s[1..], pat, j)
  {
    if j + 1 + |pat| <= |s| {
      assert s[j + 1..j + 1 + |pat|] == s[1..][j..j + |pat|];
    }
  }

  /** Index of the leftmost occurrence of `pat` in `s` (`str::find`). */
  function Find<T(==)>(s: seq<T>, pat: seq<T>): (r: Option<nat>)
    ensures r.Some? ==> OccursAt(s, pat, r.value)
    ensures r.Some? ==> forall j :: 0 <= j < r.value ==> !OccursAt(s, pat, j)
    ensures r.None? ==> forall j :: !OccursAt(s, pat, j)
    decreases |s|
  {
    if |s| < |pat| then None
    else if s[..|pat|] == pat then Some(0)
    else
      match Find(s[1..], pat)
      case None =>
        assert forall j :: !OccursAt(s, pat, j) by {
          forall j | 0 < j ensures !OccursAt(s, pat, j) {
            OccursAtTail(s, pat, j - 1);
          }
        }
        None
      case Some(k) =>
        assert OccursAt(s, pat, k + 1) by {
          OccursAtTail(s, pat, k);
        }
        assert forall j :: 0 <= j < k + 1 ==> !OccursAt(s, pat, j) by {
          forall j | 0 < j < k + 1 ensures !OccursAt(s, pat, j) {
            OccursAtTail(s, pat, j - 1);
          }
        }
        Some(k + 1)
  }

  /** The first occurrence is the one `Find` reports. */
  lemma FindFirst<T>(s: seq<T>, pat: seq<T>, i: nat)
    requires OccursAt(s, pat, i)
    requires forall j :: 0 <= j < i ==> !OccursAt(s, pat, j)
    ensures Find(s, pat) == Some(i)
  {
    var r := Find(s, pat);
    assert r.Some?;
  }

  /** `str::contains` with a string pattern. */
  function ContainsPattern<T(==)>(s: seq<T>, pat: seq<T>): (r: bool)
    ensures r <==> exists j :: OccursAt(s, pat, j)
  {
    Find(s, pat).Some?
  }

  /** A pattern whose first element does not occur in `s` is not contained in `s`. */
  lemma AbsentHeadNotContained<T>(s: seq<T>, pat: seq<T>)
    requires |pat| > 0 && pat[0] !in s
    ensures !ContainsPattern(s, pat)
  {
  }

  lemma OccursSingle<T>(s: seq<T>, c: T, v: int)
    ensures OccursAt(s, [c], v) <==> 0 <= v < |s| && s[v] == c
  {
    if 0 <= v < |s| {
      assert s[v..v + 1] == [s[v]];
    }
  }

  /** `str::split` with a non-empty string separator: the pieces between the
      leftmost non-overlapping occurrences of `sep`, empty pieces included. */
  function Split<T(==)>(s: seq<T>, sep: seq<T>): (r: seq<seq<T>>)
    requires |sep| > 0
    ensures |r| > 0
    decreases |s|
  {
    match Find(s, sep)
    case None => [s]
    case Some(i) => [s[..i]] + Split(s[i + |sep|..], sep)
  }

  /** The pieces joined back together with `sep` between them (`[T]::join`). */
  function Join<T>(parts: seq<seq<T>>, sep: seq<T>): seq<T>
  {
    if |parts| == 0 then []
    else if |parts| == 1 then parts[0]
    else parts[0] + sep + Join(parts[1..], sep)
  }

  /** No piece of a split contains the separator. */
  lemma {:induction false} SplitPiecesAvoidSep<T>(s: seq<T>, sep: seq<T>)
    requires |sep| > 0
    ensures forall k :: 0 <= k < |Split(s, sep)| ==> !ContainsPattern(Split(s, sep)[k], sep)
    decreases |s|
  {
    match Find(s, sep)
    case None =>
    case Some(i) =>
      forall j | OccursAt(s[..i], sep, j) ensures false {
        assert s[..i][j..j + |sep|] == s[j..j + |sep|];
        assert OccursAt(s, sep, j);
      }
      SplitPiecesAvoidSep(s[i + |sep|..], sep);
      var r := Split(s, sep);
      assert r == [s[..i]] + Split(s[i + |sep|..], sep);
      forall k | 0 <= k < |r| ensures !ContainsPattern(r[k], sep) {
        if k > 0 {
          assert r[k] == Split(s[i + |sep|..], sep)[k - 1];
        }
      }
  }

  /** Splitting loses nothing: joining the pieces with the separator gives the input back. */
  lemma {:induction false} JoinSplit<T>(s: seq<T>, sep: seq<T>)
    requires |sep| > 0
    ensures Join(Split(s, sep), sep) == s
    decreases |s|
  {
    match Find(s, sep)
    case None =>
    case Some(i) =>
      var rest := Split(s[i + |sep|..], sep);
      JoinSplit(s[i + |sep|..], sep);
      assert Split(s, sep) == [s[..i]] + rest;
      assert ([s[..i]] + rest)[1..] == rest;
      assert s[i..i + |sep|] == sep;
      assert s == s[..i] + s[i..i + |sep|] + s[i + |sep|..];
  }

  /** With a one-element separator that no part contains, splitting the joined
      parts gives the parts back. */
  lemma {:induction false} SplitJoin<T>(parts: seq<seq<T>>, c: T)
    requires |parts| > 0
    requires forall k :: 0 <= k < |parts| ==> c !in parts[k]
    ensures Split(Join(parts, [c]), [c]) == parts
  {
    var p := parts[0];
    if |parts| == 1 {
      AbsentHeadNotContained(p, [c]);
    } else {
      var rest := Join(parts[1..], [c]);
      var s := p + [c] + rest;
      assert Join(parts, [c]) == s;
      assert OccursAt(s, [c], |p|) by {
        assert s[|p|..|p| + 1] == [c];
      }
      forall v | 0 <= v < |p| ensures !OccursAt(s, [c], v) {
        OccursSingle(s, c, v);
        assert s[v] == p[v] && p[v] in p;
      }
      FindFirst(s, [c], |p|);
      assert s[..|p|] == p;
      assert s[|p| + 1..] == rest;
      assert Split(s, [c]) == [p] + Split(rest, [c]);
      SplitJoin(parts[1..], c);
      assert parts == [p] + parts[1..];
    }
  }

  /** Removes one trailing carriage return. */
  function StripCr(line: string): string {
    if |line| > 0 && line[|line| - 1] == '\r' then line[..|line| - 1] else line
  }

  /** `str::lines`: the pieces between line feeds, dropping the empty piece that
      a final line feed leaves, each without one trailing carriage return. */
  function Lines(s: string): seq<string> {
    var pieces := Split(s, "\n");
    var kept := if pieces[|pieces| - 1] == "" then pieces[..|pieces| - 1] else pieces;
    seq(|kept|, i requires 0 <= i < |kept| => StripCr(kept[i]))
  }

  /** No line holds a line feed. */
  lemma LinesAvoidNewline(s: string)
    ensures forall k :: 0 <= k < |Lines(s)| ==> '\n' !in Lines(s)[k]
  {
    var pieces := Split(s, "\n");
    SplitPiecesAvoidSep(s, "\n");
    var ls := Lines(s);
    forall k | 0 <= k < |ls| ensures '\n' !in ls[k] {
      var p := pieces[k];
      assert ls[k] == StripCr(p);
      forall v | 0 <= v < |p| ensures p[v] != '\n' {
        OccursSingle(p, '\n', v);
      }
    }
  }

  /** Lines without line feeds or trailing carriage returns, the last one not
      empty, are recovered from their newline-joined text. */
  lemma LinesJoin(ls: seq<string>)
    requires forall k :: 0 <= k < |ls| ==> '\n' !in ls[k]
    requires forall k :: 0 <= k < |ls| ==> StripCr(ls[k]) == ls[k]
    requires ls == [] || ls[|ls| - 1] != ""
    ensures Lines(Join(ls, "\n")) == ls
  {
    if ls == [] {
      AbsentHeadNotContained("", "\n");
      assert Split("", "\n") == [""];
    } else {
      SplitJoin(ls, '\n');
      var pieces := Split(Join(ls, "\n"), "\n");
      assert pieces == ls;
      var lines := Lines(Join(ls, "\n"));
      assert |lines| == |ls|;
      forall k | 0 <= k < |ls| ensures lines[k] == ls[k] {
        assert lines[k] == StripCr(ls[k]);
      }
    }
  }

  /** `char::is_whitespace`: the characters with Unicode's White_Space property. */
  predicate IsWhitespace(c: char) {
    || ('\t' <= c <= '\r')
    || c == ' '
    || c == '\U{85}'
    || c == '\U{A0}'
    || c == '\U{1680}'
    || ('\U{2000}' <= c <= '\U{200A}')
    || c == '\U{2028}'
    || c == '\U{2029}'
    || c == '\U{202F}'
    || c == '\U{205F}'
    || c == '\U{3000}'
  }

  /** `str::trim_start`: drops the leading whitespace. */
  function TrimStart(s: string): (r: string)
    ensures |r| <= |s| && r == s[|s| - |r|..]
    ensures forall i :: 0 <= i < |s| - |r| ==> IsWhitespace(s[i])
    ensures |r| > 0 ==> !IsWhitespace(r[0])
  {
    if |s| > 0 && IsWhitespace(s[0]) then TrimStart(s[1..]) else s
  }

  /** `str::trim_end`: drops the trailing whitespace. */
  function TrimEnd(s: string): (r: string)
    ensures |r| <= |s| && r == s[..|r|]
    ensures forall i :: |r| <= i < |s| ==> IsWhitespace(s[i])
    ensures |r| > 0 ==> !IsWhitespace(r[|r| - 1])
  {
    if |s| > 0 && IsWhitespace(s[|s| - 1]) then TrimEnd(s[..|s| - 1]) else s
  }

  /** `str::trim`. */
  function Trim(s: string): string {
    TrimEnd(TrimStart(s))
  }

  /** The trimmed text is a contiguous part of the input that neither starts
      nor ends with whitespace. */
  lemma TrimEnds(s: string)
    ensures Trim(s) == s[|s| - |TrimStart(s)|..][..|Trim(s)|]
    ensures |Trim(s)| > 0 ==> !IsWhitespace(Trim(s)[0]) && !IsWhitespace(Trim(s)[|Trim(s)| - 1])
  {
    var t := TrimStart(s);
    var r := Trim(s);
    if |r| > 0 {
      assert r[0] == t[0];
    }
  }

  /** Trimming leaves nothing exactly when the text is all whitespace. */
  lemma TrimEmptyIffBlank(s: string)
    ensures Trim(s) == "" <==> forall i :: 0 <= i < |s| ==> IsWhitespace(s[i])
  {
    var t := TrimStart(s);
    if Trim(s) == "" {
      forall i | 0 <= i < |s| ensures IsWhitespace(s[i]) {
      }
    }
  }
}
