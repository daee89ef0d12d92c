/**
 * Python string semantics used by the build script: the `in` operator on
 * strings and `str.replace`, together with `str.split` / `str.join` as an
 * independent reference description of what `replace` does.
 *
 * Strings are sequences of characters (`string` is `seq<char>`).
 */
module PyStr {

  datatype Option<T> = None | Some(value: T)

  /** `q` occurs in `s` starting at index `i`. */
  ghost predicate OccursAt(s: string, q: string, i: int) {
    0 <= i && i + |q| <= |s| && s[i..i + |q|] == q
  }

  /** Index of the leftmost occurrence of `q` in `s`, scanning left to right
      (Python's `s.find(q)`, with `None` in place of -1). */
  function Find(s: string, q: string): (r: Option<nat>)
    ensures r.Some? ==> r.value + |q| <= |s|
    decreases |s|
  {
    if |s| < |q| then None
    else if s[..|q|] == q then Some(0)
    else
      match Find(s[1..], q)
      case None => None
      case Some(j) => Some(j + 1)
  }

  /** `Find` reports the leftmost occurrence, and reports none only when
      there is none. */
  lemma FindIsLeftmost(s: string, q: string)
    ensures Find(s, q).Some? ==> OccursAt(s, q, Find(s, q).value)
    ensures Find(s, q).Some? ==> forall j :: 0 <= j < Find(s, q).value ==> !OccursAt(s, q, j)
    ensures Find(s, q).None? ==> forall j :: !OccursAt(s, q, j)
  {
    if Find(s, q).Some? {
      FindFindsLeftmost(s, q);
    } else {
      FindMissesNothing(s, q);
    }
  }

  lemma {:induction false} FindFindsLeftmost(s: string, q: string)
    requires Find(s, q).Some?
    ensures OccursAt(s, q, Find(s, q).value)
    ensures forall j :: 0 <= j < Find(s, q).value ==> !OccursAt(s, q, j)
    decreases |s|
  {
    if s[..|q|] != q {
      var t := s[1..];
      FindFindsLeftmost(t, q);
      ShiftOccurrence(s, q);
    }
  }

  lemma {:induction false} FindMissesNothing(s: string, q: string)
    requires Find(s, q).None?
    ensures forall j :: !OccursAt(s, q, j)
    decreases |s|
  {
    if |s| >= |q| {
      var t := s[1..];
      FindMissesNothing(t, q);
      ShiftOccurrence(s, q);
    }
  }

  /** An occurrence in `s` past index 0 is an occurrence in `s[1..]`, one
      index earlier, and conversely. */
  lemma ShiftOccurrence(s: string, q: string)
    requires |s| > 0
    ensures forall j :: 1 <= j ==> (OccursAt(s, q, j) <==> OccursAt(s[1..], q, j - 1))
  {
    forall j | 1 <= j
      ensures OccursAt(s, q, j) <==> OccursAt(s[1..], q, j - 1)
    {
      if j + |q| <= |s| {
        var here, there := s[j..j + |q|], s[1..][j - 1..j - 1 + |q|];
        assert forall k :: 0 <= k < |q| ==> here[k] == there[k];
        assert here == there;
      }
    }
  }

  /** Python's `q in s`. */
  function Contains(s: string, q: string): (found: bool)
    ensures found <==> exists i :: OccursAt(s, q, i)
  {
    FindIsLeftmost(s, q);
    Find(s, q).Some?
  }

  /** Python's `s.replace(pat, rep)` with no count argument: every
      non-overlapping occurrence of `pat`, found scanning left to right,
      is replaced by `rep`. An empty `pat` matches at every position. */
  function Replace(s: string, pat: string, rep: string): string
    decreases |s|
  {
    if |pat| == 0 then Interleave(s, rep)
    else if |s| < |pat| then s
    else if s[..|pat|] == pat then rep + Replace(s[|pat|..], pat, rep)
    else [s[0]] + Replace(s[1..], pat, rep)
  }

  /** `s.replace("", rep)`: `rep` before every character and once at the end. */
  function Interleave(s: string, rep: string): (r: string)
    ensures |r| == |s| + (|s| + 1) * |rep|
    ensures r[..|rep|] == rep && r[|r| - |rep|..] == rep
  {
    if |s| == 0 then rep
    else
      var tail := Interleave(s[1..], rep);
      assert (|s| - 1 + 1) * |rep| == |s| * |rep|;
      assert |s| * |rep| + |rep| == (|s| + 1) * |rep|;
      rep + [s[0]] + tail
  }

  /** In `s.replace("", rep)` the `k`-th character of `s` sits right after a
      copy of `rep` that starts at `k * (|rep| + 1)`. */
  lemma InterleavePlaces(s: string, rep: string, k: nat, p: nat)
    requires k < |s| && p == k * (|rep| + 1)
    ensures p + |rep| < |Interleave(s, rep)|
    ensures Interleave(s, rep)[p..p + |rep|] == rep && Interleave(s, rep)[p + |rep|] == s[k]
  {
    var r, t := Interleave(s, rep), Interleave(s[k..], rep);
    assert p + |rep| < |r| && r[p..] == t && t[..|rep|] == rep && t[|rep|] == s[k] by {
      InterleaveSuffix(s, rep, k, p);
      InterleaveFirst(s[k..], rep);
    }
    assert r[p..p + |rep|] == rep by {
      SliceOfSuffix(r, p, 0, |rep|);
    }
  }

  /** Past the first `k` characters and their `k` copies of `rep`,
      `s.replace("", rep)` goes on as the rest of `s` replaced the same way. */
  lemma {:induction false} InterleaveSuffix(s: string, rep: string, k: nat, p: nat)
    requires k <= |s| && p == k * (|rep| + 1)
    ensures p <= |Interleave(s, rep)| && Interleave(s, rep)[p..] == Interleave(s[k..], rep)
    decreases k
  {
    if k > 0 {
      var m := |rep| + 1;
      MultipleStepsBack(k, m);
      var p': nat := p - m;
      InterleaveFirst(s, rep);
      InterleaveSuffix(s[1..], rep, k - 1, p');
      assert s[1..][k - 1..] == s[k..];
      var r := Interleave(s, rep);
      assert r[m..][p'..] == r[p..];
    }
  }

  /** `s.replace("", rep)` starts with `rep` and the first character, and
      goes on with the rest of `s` treated the same way. */
  lemma InterleaveFirst(s: string, rep: string)
    requires |s| > 0
    ensures var r := Interleave(s, rep);
            && |r| == |rep| + 1 + |Interleave(s[1..], rep)|
            && r[..|rep|] == rep && r[|rep|] == s[0]
            && r[|rep| + 1..] == Interleave(s[1..], rep)
  {
    var r, tail := Interleave(s, rep), Interleave(s[1..], rep);
    assert r == rep + [s[0]] + tail;
  }

  /** A slice of a suffix is a slice of the whole sequence, shifted. */
  lemma SliceOfSuffix(x: string, m: nat, lo: nat, hi: nat)
    requires m + hi <= |x| && lo <= hi
    ensures x[m..][lo..hi] == x[m + lo..m + hi]
  {
  }

  lemma MultipleStepsBack(k: nat, m: nat)
    requires k > 0
    ensures k * m >= m && k * m - m == (k - 1) * m
  {
  }

  /** Python's `s.split(sep)` for a non-empty `sep`: the pieces between the
      leftmost non-overlapping occurrences of `sep`. */
  function Split(s: string, sep: string): (pieces: seq<string>)
    requires |sep| > 0
    ensures |pieces| > 0
    decreases |s|
  {
    match Find(s, sep)
    case None => [s]
    case Some(i) => [s[..i]] + Split(s[i + |sep|..], sep)
  }

  /** No piece of a split contains the separator. */
  lemma {:induction false} SplitPiecesAvoidSeparator(s: string, sep: string)
    requires |sep| > 0
    ensures forall k :: 0 <= k < |Split(s, sep)| ==> !Contains(Split(s, sep)[k], sep)
    decreases |s|
  {
    match Find(s, sep)
    case None =>
    case Some(i) =>
      var rest := s[i + |sep|..];
      FindIsLeftmost(s, sep);
      PrefixBeforeFirst(s, sep, i);
      SplitAtFirst(s, sep, i);
      SplitPiecesAvoidSeparator(rest, sep);
      var pieces := Split(s, sep);
      forall k | 0 <= k < |pieces| ensures !Contains(pieces[k], sep) {
        if k > 0 {
          assert pieces[k] == Split(rest, sep)[k - 1];
        }
      }
  }

  /** The text in front of the leftmost occurrence holds no occurrence. */
  lemma PrefixBeforeFirst(s: string, q: string, i: nat)
    requires |q| > 0 && i <= |s|
    requires forall j :: 0 <= j < i ==> !OccursAt(s, q, j)
    ensures !Contains(s[..i], q)
  {
    forall j | OccursAt(s[..i], q, j) ensures false {
      assert s[..i][j..j + |q|] == s[j..j + |q|];
      assert OccursAt(s, q, j);
    }
  }

  /** Python's `sep.join(pieces)` for a non-empty list of pieces. */
  function Join(pieces: seq<string>, sep: string): string
    requires |pieces| > 0
    decreases |pieces|
  {
    if |pieces| == 1 then pieces[0]
    else pieces[0] + sep + Join(pieces[1..], sep)
  }

  /** An occurrence inside either operand of a concatenation is an
      occurrence in the concatenation. */
  lemma OccursInConcat(x: string, y: string, q: string, i: int)
    ensures OccursAt(x, q, i) ==> OccursAt(x + y, q, i)
    ensures OccursAt(y, q, i) ==> OccursAt(x + y, q, |x| + i)
  {
    var xy := x + y;
    if OccursAt(x, q, i) {
      assert xy[i..i + |q|] == x[i..i + |q|];
    }
    if OccursAt(y, q, i) {
      assert xy[|x| + i..|x| + i + |q|] == y[i..i + |q|];
    }
  }

  /** Each position an occurrence covers holds the matching character of `q`. */
  lemma Covers(s: string, q: string, i: int, m: int)
    ensures OccursAt(s, q, i) && i <= m < i + |q| ==> s[m] == q[m - i]
  {
    if OccursAt(s, q, i) && i <= m < i + |q| {
      var hit := s[i..i + |q|];
      assert hit[m - i] == s[m];
    }
  }

  /** A character of `q` that `s` lacks keeps `q` out of `s`. */
  lemma ForeignCharacter(s: string, q: string, m: int)
    requires 0 <= m < |q| && q[m] !in s
    ensures !Contains(s, q)
  {
  }

  // ---------------------------------------------------------------------------
  // replace, step by step
  // ---------------------------------------------------------------------------

  /** `replace` copies the text in front of the leftmost occurrence, emits
      `rep` in place of that occurrence and carries on after it; with no
      occurrence it copies the whole text. */
  lemma {:induction false} ReplaceAtFirst(s: string, pat: string, rep: string)
    requires |pat| > 0
    ensures Find(s, pat).None? ==> Replace(s, pat, rep) == s
    ensures Find(s, pat).Some? ==>
              Find(s, pat).value + |pat| <= |s| &&
              Replace(s, pat, rep) == ReplacedAt(s, pat, rep, Find(s, pat).value)
  {
    match Find(s, pat)
    case None => ReplaceWithoutOccurrence(s, pat, rep);
    case Some(i) => ReplaceAt(s, pat, rep, i);
  }

  /** With no occurrence found, `replace` copies the text. */
  lemma {:induction false} ReplaceWithoutOccurrence(s: string, pat: string, rep: string)
    requires |pat| > 0 && Find(s, pat).None?
    ensures Replace(s, pat, rep) == s
    decreases |s|
  {
    if |s| >= |pat| {
      var t := s[1..];
      ReplaceWithoutOccurrence(t, pat, rep);
      assert s == [s[0]] + t;
    }
  }

  /** The inductive step of `ReplaceAtFirst` when no match starts at index 0. */
  lemma ReplaceSkipsCharacter(s: string, pat: string, rep: string, j: nat)
    requires 0 < |pat| <= |s| && s[..|pat|] != pat
    requires j + 1 + |pat| <= |s|
    requires Replace(s[1..], pat, rep) == ReplacedAt(s[1..], pat, rep, j)
    ensures Replace(s, pat, rep) == ReplacedAt(s, pat, rep, j + 1)
  {
    var t := s[1..];
    assert t[j + |pat|..] == s[j + 1 + |pat|..];
    ConsPrefix(s, j, rep, Replace(t[j + |pat|..], pat, rep));
  }

  /** Putting back the first character in front of a prefix of the rest. */
  lemma ConsPrefix(s: string, j: nat, x: string, y: string)
    requires j < |s|
    ensures [s[0]] + (s[1..][..j] + x + y) == s[..j + 1] + x + y
  {
    assert [s[0]] + s[1..][..j] == s[..j + 1];
  }

  /** The text in front of index `i`, then `rep`, then the rest of the text
      after an occurrence of `pat` at `i` with `replace` applied to it. */
  function ReplacedAt(s: string, pat: string, rep: string, i: nat): string
    requires i + |pat| <= |s|
  {
    s[..i] + rep + Replace(s[i + |pat|..], pat, rep)
  }

  /** Text without an occurrence of `pat` is returned unchanged. */
  lemma ReplaceWithoutMatch(s: string, pat: string, rep: string)
    requires !Contains(s, pat)
    ensures Replace(s, pat, rep) == s
  {
    if |pat| > 0 {
      ReplaceAtFirst(s, pat, rep);
    }
  }

  /** Once something is replaced, the output holds the replacement text. */
  lemma ReplaceInsertsReplacement(s: string, pat: string, rep: string)
    requires |pat| > 0 && Contains(s, pat)
    ensures Contains(Replace(s, pat, rep), rep)
  {
    ReplaceAtFirst(s, pat, rep);
    var i := Find(s, pat).value;
    var before, after := s[..i], Replace(s[i + |pat|..], pat, rep);
    OccursInMiddle(before, rep, after);
  }

  /** `y` occurs in `x + y + z` right after `x`. */
  lemma OccursInMiddle(x: string, y: string, z: string)
    ensures OccursAt(x + y + z, y, |x|)
  {
    var o := x + y + z;
    assert o[|x|..|x| + |y|] == y;
  }

  // ---------------------------------------------------------------------------
  // replace as split and join
  // ---------------------------------------------------------------------------

  /** Joining the pieces of a split with the separator restores the text:
      the pieces are exactly the text outside the occurrences. */
  lemma {:induction false} JoinSplitRoundTrip(s: string, sep: string)
    requires |sep| > 0
    ensures Join(Split(s, sep), sep) == s
    decreases |s|
  {
    match Find(s, sep)
    case None =>
    case Some(i) =>
      var rest := s[i + |sep|..];
      FindIsLeftmost(s, sep);
      SplitAtFirst(s, sep, i);
      JoinSplitRoundTrip(rest, sep);
      JoinCons(s[..i], Split(rest, sep), sep);
      assert s[i..i + |sep|] == sep;
      assert s == s[..i] + s[i..i + |sep|] + rest;
  }

  /** `s.replace(pat, rep) == rep.join(s.split(pat))`: the output is the text
      outside the occurrences, character for character, with `rep` standing
      where each occurrence stood. */
  lemma {:induction false} ReplaceIsJoinOfSplit(s: string, pat: string, rep: string)
    requires |pat| > 0
    ensures Replace(s, pat, rep) == Join(Split(s, pat), rep)
    decreases |s|
  {
    match Find(s, pat)
    case None =>
      ReplaceAtFirst(s, pat, rep);
    case Some(i) =>
      ReplaceAt(s, pat, rep, i);
      ReplaceIsJoinOfSplit(s[i + |pat|..], pat, rep);
      ReplaceIsJoinOfSplitAt(s, pat, rep, i);
  }

  /** The inductive step of `ReplaceIsJoinOfSplit` at the leftmost occurrence. */
  lemma ReplaceIsJoinOfSplitAt(s: string, pat: string, rep: string, i: nat)
    requires |pat| > 0 && Find(s, pat) == Some(i) && i + |pat| <= |s|
    requires Replace(s[i + |pat|..], pat, rep) == Join(Split(s[i + |pat|..], pat), rep)
    ensures Replace(s, pat, rep) == Join(Split(s, pat), rep)
  {
    ReplaceAt(s, pat, rep, i);
    SplitAtFirst(s, pat, i);
    var rest := s[i + |pat|..];
    var whole, pieces := Replace(s, pat, rep), Split(s, pat);
    assert whole == ReplacedAt(s, pat, rep, i);
    JoinStep(whole, pieces, s[..i], rep, Replace(rest, pat, rep), Split(rest, pat));
  }

  /** At the leftmost occurrence `i`, `replace` copies the text in front of
      it, emits `rep` and carries on after it. */
  lemma {:induction false} ReplaceAt(s: string, pat: string, rep: string, i: nat)
    requires |pat| > 0 && Find(s, pat) == Some(i)
    ensures i + |pat| <= |s|
    ensures Replace(s, pat, rep) == ReplacedAt(s, pat, rep, i)
    decreases |s|
  {
    if s[..|pat|] == pat {
      assert s[..0] == [];
    } else {
      var t := s[1..];
      ReplaceAt(t, pat, rep, i - 1);
      ReplaceSkipsCharacter(s, pat, rep, i - 1);
    }
  }

  /** The inductive step of `ReplaceIsJoinOfSplit`, on plain values: a head
      followed by `rep` and a joined tail is the join of head and tail. */
  lemma JoinStep(whole: string, split: seq<string>, head: string, rep: string,
                 tail: string, pieces: seq<string>)
    requires |pieces| > 0 && tail == Join(pieces, rep)
    requires whole == head + rep + tail && split == [head] + pieces
    ensures whole == Join(split, rep)
  {
    JoinCons(head, pieces, rep);
  }

  /** `split` cuts the text at the leftmost occurrence and carries on after it. */
  lemma SplitAtFirst(s: string, sep: string, i: nat)
    requires |sep| > 0 && Find(s, sep) == Some(i)
    ensures i + |sep| <= |s|
    ensures Split(s, sep) == [s[..i]] + Split(s[i + |sep|..], sep)
  {
    var pieces := Split(s, sep);
    assert pieces == [s[..i]] + Split(s[i + |sep|..], sep);
  }

  /** Joining a piece in front of a non-empty list of pieces. */
  lemma JoinCons(p: string, pieces: seq<string>, sep: string)
    requires |pieces| > 0
    ensures Join([p] + pieces, sep) == p + sep + Join(pieces, sep)
  {
    assert ([p] + pieces)[1..] == pieces;
  }

  /** An occurrence inside one piece is an occurrence in the joined text. */
  lemma {:induction false} JoinExposesPiece(pieces: seq<string>, sep: string, q: string, k: int)
    requires 0 <= k < |pieces| && Contains(pieces[k], q)
    ensures Contains(Join(pieces, sep), q)
    decreases k
  {
    var i :| OccursAt(pieces[k], q, i);
    if |pieces| > 1 {
      var rest := Join(pieces[1..], sep);
      assert Join(pieces, sep) == pieces[0] + (sep + rest);
      if k == 0 {
        OccursInConcat(pieces[0], sep + rest, q, i);
      } else {
        JoinExposesPiece(pieces[1..], sep, q, k - 1);
        var j :| OccursAt(rest, q, j);
        OccursInConcat(sep, rest, q, j);
        OccursInConcat(pieces[0], sep + rest, q, |sep| + j);
      }
    }
  }

  /** `sep` can stand between pieces of text without taking part in any
      occurrence of `q`. The witnesses are two positions `a <= b` of `sep`
      holding characters that `q` lacks; `q` must not end on a character of
      `sep` before `a`, nor start on one after `b`, nor fit inside `sep`. */
  ghost predicate Isolated(q: string, sep: string, a: int, b: int) {
    && |q| > 0
    && 0 <= a <= b < |sep|
    && sep[a] !in q && sep[b] !in q
    && q[|q| - 1] !in sep[..a]
    && q[0] !in sep[b + 1..]
    && !Contains(sep, q)
  }

  /** Joining pieces free of `q` with an isolated separator creates no
      occurrence of `q`. */
  lemma {:induction false} JoinAvoids(pieces: seq<string>, sep: string, q: string, a: int, b: int)
    requires |pieces| > 0
    requires Isolated(q, sep, a, b)
    requires forall k :: 0 <= k < |pieces| ==> !Contains(pieces[k], q)
    ensures !Contains(Join(pieces, sep), q)
    decreases |pieces|
  {
    if |pieces| > 1 {
      var rest := Join(pieces[1..], sep);
      JoinAvoids(pieces[1..], sep, q, a, b);
      forall i | OccursAt(pieces[0] + sep + rest, q, i) ensures false {
        SeparatorBlocks(pieces[0], sep, rest, q, a, b, i);
      }
    }
  }

  /** One step of `JoinAvoids`: an occurrence in `p + sep + rest` lies wholly
      in `p` or wholly in `rest`. */
  lemma SeparatorBlocks(p: string, sep: string, rest: string, q: string, a: int, b: int, i: int)
    requires Isolated(q, sep, a, b)
    requires OccursAt(p + sep + rest, q, i)
    ensures OccursAt(p, q, i) || OccursAt(rest, q, i - |p| - |sep|)
  {
    var o := p + sep + rest;
    var P, S := |p|, |sep|;
    var hit := o[i..i + |q|];
    // The characters of `o` that an occurrence overlapping `sep` would have
    // to match: sep[a], sep[b], its own last and its own first character.
    Covers(o, q, i, P + a);
    Covers(o, q, i, P + b);
    Covers(o, q, i, i + |q| - 1);
    Covers(o, q, i, i);
    // An occurrence lying wholly inside `sep` would be an occurrence in `sep`.
    OccursInsideMiddle(p, sep, rest, q, i);
    if i + |q| <= P {
      assert hit == p[i..i + |q|];
    } else if i >= P + S {
      assert hit == rest[i - P - S..i - P - S + |q|];
    } else {
      assert false;
    }
  }

  /** An occurrence in `p + sep + rest` that lies within `sep` is an
      occurrence in `sep`. */
  lemma OccursInsideMiddle(p: string, sep: string, rest: string, q: string, i: int)
    ensures OccursAt(p + sep + rest, q, i) && |p| <= i && i + |q| <= |p| + |sep| ==>
              OccursAt(sep, q, i - |p|)
  {
    if OccursAt(p + sep + rest, q, i) && |p| <= i && i + |q| <= |p| + |sep| {
      assert (p + sep + rest)[i..i + |q|] == sep[i - |p|..i - |p| + |q|];
    }
  }

  /** With an isolated replacement text, `replace` leaves no occurrence of
      the pattern behind: none can form across a boundary. */
  lemma ReplaceRemovesPattern(s: string, pat: string, rep: string, a: int, b: int)
    requires Isolated(pat, rep, a, b)
    ensures !Contains(Replace(s, pat, rep), pat)
  {
    ReplaceIsJoinOfSplit(s, pat, rep);
    SplitPiecesAvoidSeparator(s, pat);
    JoinAvoids(Split(s, pat), rep, pat, a, b);
  }

  /** With a replacement text isolated from `q`, `replace` creates no
      occurrence of `q` in text that had none. */
  lemma ReplaceKeepsAbsent(s: string, pat: string, rep: string, q: string, a: int, b: int)
    requires |pat| > 0 && !Contains(s, q)
    requires Isolated(q, rep, a, b)
    ensures !Contains(Replace(s, pat, rep), q)
  {
    var pieces := Split(s, pat);
    JoinSplitRoundTrip(s, pat);
    forall k | 0 <= k < |pieces| ensures !Contains(pieces[k], q) {
      if Contains(pieces[k], q) {
        JoinExposesPiece(pieces, pat, q, k);
      }
    }
    ReplaceIsJoinOfSplit(s, pat, rep);
    JoinAvoids(pieces, rep, q, a, b);
  }
}
