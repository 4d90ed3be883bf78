/** JavaScript string operations that the text parsers of src/index.js rely on:
    `String.prototype.indexOf` and `String.prototype.split` with a literal
    separator, and `Array.prototype.join` as the inverse of `split`.
    Strings are sequences of characters; the separators used by the parsers
    (" ", "\n", "\n\n") are plain ASCII, so code units and characters agree. */
module JsString {

  datatype Option<T> = None | Some(value: T)

  /** `sep` occurs in `s` starting at index `i`. */
  predicate OccursAt(s: string, sep: string, i: nat) {
    i + |sep| <= |s| && s[i..i + |sep|] == sep
  }

  /** `sep` occurs somewhere in `s`. */
  ghost predicate Contains(s: string, sep: string) {
    exists i: nat :: OccursAt(s, sep, i)
  }

  /** Shifting the start of `s` by one shifts every occurrence by one. */
  lemma OccursAtTail(s: string, sep: string, j: nat)
    requires |s| > 0
    ensures OccursAt(s, sep, j + 1) <==> OccursAt(s[1..], sep, j)
  {
    if j + 1 + |sep| <= |s| {
      assert s[1..][j..j + |sep|] == s[j + 1..j + 1 + |sep|];
    }
  }

  /** `s.indexOf(sep)`: the leftmost occurrence of `sep` in `s`, if any. */
  function IndexOf(s: string, sep: string): (r: Option<nat>)
    ensures r.Some? ==> OccursAt(s, sep, r.value)
    ensures r.Some? ==> forall j: nat :: j < r.value ==> !OccursAt(s, sep, j)
    ensures r.None? ==> !Contains(s, sep)
    decreases |s|
  {
    if |s| < |sep| then
      None
    else if sep <= s then
      assert s[0..|sep|] == sep;
      Some(0)
    else
      assert !OccursAt(s, sep, 0);
      match IndexOf(s[1..], sep)
      case None =>
        assert forall j: nat :: !OccursAt(s, sep, j) by {
          forall j: nat ensures !OccursAt(s, sep, j) {
            if j > 0 { OccursAtTail(s, sep, j - 1); }
          }
        }
        None
      case Some(k) =>
        OccursAtTail(s, sep, k);
        assert forall j: nat :: j < k + 1 ==> !OccursAt(s, sep, j) by {
          forall j: nat | j < k + 1 ensures !OccursAt(s, sep, j) {
            if j > 0 { OccursAtTail(s, sep, j - 1); }
          }
        }
        Some(k + 1)
  }

  /** `s.split(sep)` for a non-empty literal separator: the pieces between the
      leftmost non-overlapping occurrences of `sep`, scanning from the left.
      There is always at least one piece; `"".split(sep)` is `[""]`. */
  function Split(s: string, sep: string): (r: seq<string>)
    requires |sep| > 0
    ensures |r| >= 1
    decreases |s|
  {
    match IndexOf(s, sep)
    case None => [s]
    case Some(i) => [s[..i]] + Split(s[i + |sep|..], sep)
  }

  /** `parts.join(sep)`; `[].join(sep)` is the empty string. */
  function Join(parts: seq<string>, sep: string): string {
    if |parts| == 0 then ""
    else if |parts| == 1 then parts[0]
    else parts[0] + sep + Join(parts[1..], sep)
  }

  /** Joining a piece in front of a non-empty list puts one separator between. */
  lemma JoinCons(p: string, ps: seq<string>, sep: string)
    requires |ps| >= 1
    ensures Join([p] + ps, sep) == p + sep + Join(ps, sep)
  {
    assert ([p] + ps)[1..] == ps;
  }

  /** Around an occurrence, `s` is what precedes it, the separator, and what
      follows it. */
  lemma AroundOccurrence(s: string, sep: string, i: nat)
    requires OccursAt(s, sep, i)
    ensures s == s[..i] + sep + s[i + |sep|..]
  {
    var n := |sep|;
    assert s[..i + n] == s[..i] + s[i..i + n];
    assert s == s[..i + n] + s[i + n..];
  }

  /** One step of a split: the piece before the leftmost occurrence, then the
      split of what follows it. */
  lemma SplitStep(s: string, sep: string, i: nat)
    requires |sep| > 0 && IndexOf(s, sep) == Some(i)
    ensures i + |sep| <= |s|
    ensures Split(s, sep) == [s[..i]] + Split(s[i + |sep|..], sep)
    ensures s == s[..i] + sep + s[i + |sep|..]
  {
    AroundOccurrence(s, sep, i);
  }

  /** Joining the pieces of a split with the separator gives back the input. */
  lemma {:induction false} JoinSplit(s: string, sep: string)
    requires |sep| > 0
    ensures Join(Split(s, sep), sep) == s
    decreases |s|
  {
    match IndexOf(s, sep)
    case None =>
    case Some(i) =>
      var rest := s[i + |sep|..];
      SplitStep(s, sep, i);
      JoinSplit(rest, sep);
      JoinCons(s[..i], Split(rest, sep), sep);
  }

  /** No piece of a split contains the separator. */
  lemma {:induction false} SplitPiecesAvoidSep(s: string, sep: string)
    requires |sep| > 0
    ensures forall k :: 0 <= k < |Split(s, sep)| ==> !Contains(Split(s, sep)[k], sep)
    decreases |s|
  {
    match IndexOf(s, sep)
    case None =>
    case Some(i) =>
      var rest := s[i + |sep|..];
      SplitStep(s, sep, i);
      SplitPiecesAvoidSep(rest, sep);
      var head := s[..i];
      forall j: nat ensures !OccursAt(head, sep, j) {
        if OccursAt(head, sep, j) {
          assert head[j..j + |sep|] == s[j..j + |sep|];
          assert OccursAt(s, sep, j);
          assert false;
        }
      }
  }

  /** A one-character separator that is absent from `s` does not occur in it. */
  lemma AbsentCharNotContained(s: string, c: char)
    requires c !in s
    ensures !Contains(s, [c])
  {
    forall j: nat ensures !OccursAt(s, [c], j) {
      if j < |s| {
        assert s[j..j + 1] == [s[j]];
      }
    }
  }

  /** A one-character separator that occurs in `s` is contained in it. */
  lemma PresentCharContained(s: string, c: char, j: nat)
    requires j < |s| && s[j] == c
    ensures OccursAt(s, [c], j)
  {
    assert s[j..j + 1] == [c];
  }

  /** Splitting on one character yields one more piece than the number of
      times that character occurs. */
  lemma {:induction false} SplitCharCount(s: string, c: char)
    ensures |Split(s, [c])| == multiset(s)[c] + 1
    decreases |s|
  {
    match IndexOf(s, [c])
    case None =>
      if c in s {
        var j :| 0 <= j < |s| && s[j] == c;
        PresentCharContained(s, c, j);
      }
    case Some(i) =>
      var rest := s[i + 1..];
      SplitStep(s, [c], i);
      SplitCharCount(rest, c);
      var head := s[..i];
      if c in head {
        var j :| 0 <= j < |head| && head[j] == c;
        PresentCharContained(s, c, j);
      }
      assert s[i..i + 1] == [c];
      assert s == head + [c] + rest;
      assert multiset(s) == multiset(head) + multiset([c]) + multiset(rest);
  }

  /** The leftmost occurrence of a one-character separator is the first
      index holding that character. */
  lemma IndexOfChar(s: string, c: char, m: nat)
    requires m < |s| && s[m] == c
    requires forall j :: 0 <= j < m ==> s[j] != c
    ensures IndexOf(s, [c]) == Some(m)
  {
    PresentCharContained(s, c, m);
    forall j: nat | j < m ensures !OccursAt(s, [c], j) {
      assert s[j..j + 1] == [s[j]];
    }
  }

  /** For a one-character separator, split undoes join: pieces that do not
      contain the separator come back unchanged and in order. */
  lemma {:induction false} SplitJoinChar(parts: seq<string>, c: char)
    requires |parts| >= 1
    requires forall k :: 0 <= k < |parts| ==> c !in parts[k]
    ensures Split(Join(parts, [c]), [c]) == parts
    decreases |parts|
  {
    if |parts| == 1 {
      AbsentCharNotContained(parts[0], c);
    } else {
      var head, tail := parts[0], Join(parts[1..], [c]);
      var s := head + [c] + tail;
      assert Join(parts, [c]) == s;
      assert s[..|head|] == head && s[|head|] == c;
      IndexOfChar(s, c, |head|);
      SplitStep(s, [c], |head|);
      assert s[|head| + 1..] == tail;
      SplitJoinChar(parts[1..], c);
      assert parts == [head] + parts[1..];
    }
  }

  /** When `s` ends with a one-character separator, the last piece is empty. */
  lemma {:induction false} SplitTrailingChar(s: string, c: char)
    ensures Split(s + [c], [c])[|Split(s + [c], [c])| - 1] == ""
    decreases |s|
  {
    var t := s + [c];
    PresentCharContained(t, c, |s|);
    match IndexOf(t, [c])
    case None =>
      assert false;
    case Some(i) =>
      SplitStep(t, [c], i);
      var after := t[i + 1..];
      var r, q := Split(t, [c]), Split(after, [c]);
      assert r[|r| - 1] == q[|q| - 1];
      if i == |s| {
        assert after == "";
        assert q == [""];
      } else {
        var rest := s[i + 1..];
        assert after == rest + [c];
        SplitTrailingChar(rest, c);
      }
  }

  /** A text shorter than the separator is a single piece. */
  lemma SplitShort(s: string, sep: string)
    requires 0 < |sep| && |s| < |sep|
    ensures Split(s, sep) == [s]
  {
  }

  /** When `s` ends with a doubled character and the separator is that pair,
      the last piece is empty or the single character: the scan can stop one
      character early when the pair overlaps a character before it. */
  lemma {:induction false} SplitTrailingPair(s: string, c: char)
    ensures var r := Split(s + [c, c], [c, c]);
            r[|r| - 1] == [] || r[|r| - 1] == [c]
    decreases |s|
  {
    var t := s + [c, c];
    assert OccursAt(t, [c, c], |s|) by {
      assert t[|s|..|s| + 2] == [c, c];
    }
    match IndexOf(t, [c, c])
    case None =>
      assert false;
    case Some(i) =>
      assert i <= |s|;
      SplitStep(t, [c, c], i);
      var after := t[i + 2..];
      var r, q := Split(t, [c, c]), Split(after, [c, c]);
      assert r[|r| - 1] == q[|q| - 1];
      if i == |s| {
        assert after == [];
        SplitShort(after, [c, c]);
      } else if i + 1 == |s| {
        assert after == [c];
        SplitShort(after, [c, c]);
      } else {
        var rest := s[i + 2..];
        assert after == rest + [c, c];
        SplitTrailingPair(rest, c);
      }
  }
}
