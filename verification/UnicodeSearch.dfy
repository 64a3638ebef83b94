/** UnicodeString.indexOf: a scan that, on a mismatch, starts the needle again at the code point in
    hand instead of backing up, and when that finds the leftmost occurrence. */
module UnicodeSearch {
  import opened Optional
  import opened Utf16
  import opened UnicodeString

  type Text = seq<CodePoint>

  predicate OccursAt(t: Text, p: Text, k: nat) {
    k + |p| <= |t| && t[k..k + |p|] == p
  }

  /** The scan over code points: u is the position in t and j how much of p has matched before it. */
  function Scan(t: Text, p: Text, start: nat, u: nat, j: nat): int
    requires u <= |t| && j < |p|
    decreases |t| - u, j
  {
    if u == |t| then -1
    else if u < start then Scan(t, p, start, u + 1, j)
    else if t[u] != p[j] then (if j == 0 then Scan(t, p, start, u + 1, 0) else Scan(t, p, start, u, 0))
    else if j + 1 == |p| then u - j
    else Scan(t, p, start, u + 1, j + 1)
  }

  /** What one round reads of the text: a code point, or nothing at the end. */
  lemma ReadNext(s: seq<Unit>, t: Text, u: nat)
    requires s == EncodeAll(t) && u <= |t|
    ensures CodePointAt(s, Offset(t, u)) == if u < |t| then t[u] else EOF
    ensures u < |t| ==> Offset(t, u + 1) == Offset(t, u) + Width(t[u])
    ensures u == |t| ==> Offset(t, u) == |s|
  {
    hide EncodeAll, CodePointAt, Offset;
    OffsetEnds(s, t);
    if u < |t| {
      ReadAtOffset(s, t, u);
    }
  }

  /** What one round reads of the needle, and how the offset tells the first and the last of it. */
  lemma ReadNeedle(str: seq<Unit>, p: Text, j: nat)
    requires str == EncodeAll(p) && j < |p|
    ensures CodePointAt(str, Offset(p, j)) == p[j] && Offset(p, j + 1) == Offset(p, j) + Width(p[j])
    ensures Offset(p, 0) == 0
    ensures Offset(p, j) == 0 <==> j == 0
    ensures Offset(p, j + 1) == |str| <==> j + 1 == |p|
  {
    hide EncodeAll, CodePointAt, Offset;
    OffsetEnds(str, p);
    ReadAtOffset(str, p, j);
    OffsetGrows(str, p, 0, j);
    OffsetGrows(str, p, j + 1, |p|);
  }

  lemma ScanStep(t: Text, p: Text, start: nat, u: nat, j: nat)
    requires u <= |t| && j < |p|
    ensures u == |t| ==> Scan(t, p, start, u, j) == -1
    ensures u < |t| && u < start ==> Scan(t, p, start, u, j) == Scan(t, p, start, u + 1, j)
    ensures u < |t| && u >= start && t[u] != p[j] && j == 0 ==> Scan(t, p, start, u, j) == Scan(t, p, start, u + 1, 0)
    ensures u < |t| && u >= start && t[u] != p[j] && j != 0 ==> Scan(t, p, start, u, j) == Scan(t, p, start, u, 0)
    ensures u < |t| && u >= start && t[u] == p[j] && j + 1 == |p| ==> Scan(t, p, start, u, j) == u - j
    ensures u < |t| && u >= start && t[u] == p[j] && j + 1 < |p| ==>
              Scan(t, p, start, u, j) == Scan(t, p, start, u + 1, j + 1)
  {
  }

  /** The answer a search for the leftmost occurrence from `start` on ought to give */
  ghost predicate IsLeftmost(t: Text, p: Text, start: nat, r: int) {
    if r == -1 then NoneBetween(t, p, start, |t| + 1)
    else start <= r && OccursAt(t, p, r) && NoneBetween(t, p, start, r)
  }

  ghost predicate NoneBetween(t: Text, p: Text, from: nat, to: nat) {
    forall k: nat | from <= k < to :: !OccursAt(t, p, k)
  }

  /** The code points before position u are the first j of the needle. */
  ghost predicate Matched(t: Text, p: Text, start: nat, u: nat, j: nat) {
    j <= u <= |t| && j < |p| && (j > 0 ==> start + j <= u) && t[u - j..u] == p[..j]
  }

  lemma MatchOne(t: Text, p: Text, start: nat, u: nat, j: nat)
    requires Matched(t, p, start, u, j) && u < |t| && start <= u && t[u] == p[j]
    ensures j + 1 < |p| ==> Matched(t, p, start, u + 1, j + 1)
    ensures j + 1 == |p| ==> start <= u - j && OccursAt(t, p, u - j)
  {
    assert t[u - j..u + 1] == t[u - j..u] + [t[u]];
    assert p[..j + 1] == p[..j] + [p[j]];
    assert j + 1 == |p| ==> p[..j + 1] == p;
  }

  /** Every position answered is an occurrence, for every needle. */
  lemma {:induction false} ScanIsSound(t: Text, p: Text, start: nat, u: nat, j: nat)
    requires Matched(t, p, start, u, j)
    ensures var r := Scan(t, p, start, u, j); r == -1 || (start <= r && OccursAt(t, p, r))
    decreases |t| - u, j
  {
    hide OccursAt;
    if u < |t| {
      if u < start {
        ScanIsSound(t, p, start, u + 1, 0);
      } else if t[u] == p[j] {
        MatchOne(t, p, start, u, j);
        if j + 1 < |p| {
          ScanIsSound(t, p, start, u + 1, j + 1);
        }
      } else if j == 0 {
        ScanIsSound(t, p, start, u + 1, 0);
      } else {
        ScanIsSound(t, p, start, u, 0);
      }
    }
  }

  /** Where a proper prefix of the needle ends as the needle begins, the needle goes on alike after both:
      a mismatch then rules out every place inside the part matched so far. */
  ghost predicate Restartable(p: Text) {
    forall m: nat, b: nat | 1 <= b < m < |p| && Border(p, m, b) :: p[b] == p[m]
  }

  predicate Border(p: Text, m: nat, b: nat)
    requires b <= m <= |p|
  {
    p[..b] == p[m - b..m]
  }

  /** An occurrence agrees with the needle at each place. */
  lemma OccursThere(t: Text, p: Text, k: nat, i: nat)
    requires OccursAt(t, p, k) && i < |p|
    ensures k + i < |t| && t[k + i] == p[i]
  {
    assert t[k + i] == t[k..k + |p|][i];
  }

  /** An occurrence that begins b before the end of a match is a border of what matched. */
  lemma OverlapIsBorder(t: Text, p: Text, start: nat, u: nat, j: nat, b: nat)
    requires Matched(t, p, start, u, j) && b <= j && OccursAt(t, p, u - b)
    ensures Border(p, j, b)
  {
    assert t[u - b..u] == t[u - b..u - b + |p|][..b] == p[..b];
    assert t[u - b..u] == t[u - j..u][j - b..] == p[..j][j - b..] == p[j - b..j];
  }

  /** At a mismatch after j matches no occurrence begins among them. */
  lemma NoneInside(t: Text, p: Text, start: nat, u: nat, j: nat, b: nat)
    requires Restartable(p) && Matched(t, p, start, u, j) && u < |t| && t[u] != p[j] && 1 <= b <= j
    ensures !OccursAt(t, p, u - b)
  {
    hide OccursAt, Border;
    if OccursAt(t, p, u - b) {
      OverlapIsBorder(t, p, start, u, j, b);
      OccursThere(t, p, u - b, b);
    }
  }

  lemma NoneBehind(t: Text, p: Text, start: nat, u: nat, j: nat)
    requires Restartable(p) && Matched(t, p, start, u, j) && u < |t| && t[u] != p[j]
    ensures NoneBetween(t, p, u - j, u)
  {
    hide OccursAt, Restartable;
    forall k: nat | u - j <= k < u ensures !OccursAt(t, p, k) {
      NoneInside(t, p, start, u, j, u - k);
    }
  }

  lemma NoneAt(t: Text, p: Text, u: nat)
    requires p != [] && u < |t| && t[u] != p[0]
    ensures !OccursAt(t, p, u)
  {
    hide OccursAt;
    if OccursAt(t, p, u) {
      OccursThere(t, p, u, 0);
    }
  }

  lemma {:induction false} ScanIsLeftmost(t: Text, p: Text, start: nat, u: nat, j: nat)
    requires Restartable(p) && Matched(t, p, start, u, j) && NoneBetween(t, p, start, u - j)
    ensures IsLeftmost(t, p, start, Scan(t, p, start, u, j))
    decreases |t| - u, j
  {
    hide OccursAt, Restartable;
    if u == |t| {
      TooLate(t, p, start, u, j);
    } else if u < start {
      ScanIsLeftmost(t, p, start, u + 1, 0);
    } else if t[u] == p[j] {
      MatchOne(t, p, start, u, j);
      if j + 1 < |p| {
        ScanIsLeftmost(t, p, start, u + 1, j + 1);
      }
    } else if j == 0 {
      NoneAt(t, p, u);
      ScanIsLeftmost(t, p, start, u + 1, 0);
    } else {
      NoneBehind(t, p, start, u, j);
      ScanIsLeftmost(t, p, start, u, 0);
    }
  }

  /** With fewer code points left than the needle still needs there is no occurrence. */
  lemma TooLate(t: Text, p: Text, start: nat, u: nat, j: nat)
    requires u == |t| && j <= u && j < |p| && NoneBetween(t, p, start, u - j)
    ensures NoneBetween(t, p, start, |t| + 1)
  {
  }

  /** What a whole scan answers. */
  lemma ScanAnswer(t: Text, p: Text, start: nat)
    requires p != []
    ensures var r := Scan(t, p, start, 0, 0); r == -1 || (start <= r && OccursAt(t, p, r))
    ensures Restartable(p) ==> IsLeftmost(t, p, start, Scan(t, p, start, 0, 0))
  {
    hide Scan, OccursAt, Restartable, IsLeftmost;
    ScanIsSound(t, p, start, 0, 0);
    if Restartable(p) {
      ScanIsLeftmost(t, p, start, 0, 0);
    }
  }

  lemma {:induction false} ScanRunsOut(t: Text, p: Text, start: nat, u: nat, j: nat)
    requires u <= |t| && j < |p| && |t| - u < |p| - j
    ensures Scan(t, p, start, u, j) == -1
    decreases |t| - u, j
  {
    if u < |t| {
      if u < start {
        ScanRunsOut(t, p, start, u + 1, j);
      } else if t[u] == p[j] {
        ScanRunsOut(t, p, start, u + 1, j + 1);
      } else if j == 0 {
        ScanRunsOut(t, p, start, u + 1, 0);
      } else {
        ScanRunsOut(t, p, start, u, 0);
      }
    }
  }

  /** The scan steps over a prefix of the needle that starts the text. */
  lemma {:induction false} ScanPrefix(t: Text, p: Text, m: nat, i: nat)
    requires i <= m < |p| && m <= |t| && t[..m] == p[..m]
    ensures Scan(t, p, 0, i, i) == Scan(t, p, 0, m, m)
    decreases m - i
  {
    if i < m {
      assert t[i] == t[..m][i] == p[..m][i] == p[i];
      ScanPrefix(t, p, m, i + 1);
    }
  }

  /** A text in which the needle occurs and the scan does not find it */
  function Missed(p: Text, m: nat, b: nat): Text
    requires 1 <= b < m < |p|
  {
    p[..m] + p[b..]
  }

  lemma MissedIsMissed(p: Text, m: nat, b: nat)
    requires 1 <= b < m < |p| && Border(p, m, b) && p[b] != p[m]
    ensures OccursAt(Missed(p, m, b), p, m - b)
    ensures Scan(Missed(p, m, b), p, 0, 0, 0) == -1
  {
    var t := Missed(p, m, b);
    assert t[m - b..m - b + |p|] == p[m - b..m] + p[b..];
    assert p == p[..b] + p[b..];
    ScanPrefix(t, p, m, 0);
    assert t[m] == p[b];
    ScanRunsOut(t, p, 0, m, 0);
  }

  /** What indexOf answers: the scan, but never an occurrence of the empty needle */
  function Answer(t: Text, p: Text, start: nat): int {
    if p == [] then -1 else Scan(t, p, start, 0, 0)
  }

  /** The search is right about every text and every start exactly when its needle is not empty and is
      restartable. */
  lemma RightIffRestartable(p: Text)
    ensures p != [] && Restartable(p) <==>
            forall t: Text, start: nat :: IsLeftmost(t, p, start, Answer(t, p, start))
  {
    if p == [] {
      assert OccursAt([], p, 0);
      assert !IsLeftmost([], p, 0, Answer([], p, 0));
    } else if Restartable(p) {
      forall t: Text, start: nat ensures IsLeftmost(t, p, start, Answer(t, p, start)) {
        ScanIsLeftmost(t, p, start, 0, 0);
      }
    } else {
      var m: nat, b: nat :| 1 <= b < m < |p| && Border(p, m, b) && p[b] != p[m];
      MissedIsMissed(p, m, b);
      var t := Missed(p, m, b);
      assert !IsLeftmost(t, p, 0, Answer(t, p, 0));
    }
  }

  /** Such is every needle whose first code point does not come again. */
  lemma FreshFirstIsRestartable(p: Text)
    requires p != [] && p[0] !in p[1..]
    ensures Restartable(p)
  {
    hide Border;
    if !Restartable(p) {
      var m: nat, b: nat :| 1 <= b < m < |p| && Border(p, m, b) && p[b] != p[m];
      BorderRepeatsFirst(p, m, b);
    }
  }

  lemma BorderRepeatsFirst(p: Text, m: nat, b: nat)
    requires 1 <= b < m < |p| && Border(p, m, b)
    ensures p[0] in p[1..]
  {
    assert p[m - b] == p[m - b..m][0] == p[..b][0] == p[0];
    assert p[1..][m - b - 1] == p[m - b];
  }

  /** "aab" in "aaab" */
  lemma AabIsMissed()
    ensures var p: Text, t: Text := [97, 97, 98], [97, 97, 97, 98];
            !Restartable(p) && OccursAt(t, p, 1) && Scan(t, p, 0, 0, 0) == -1
  {
    var p: Text := [97, 97, 98];
    assert p[..1] == p[1..2];
    assert Border(p, 2, 1) && p[1] != p[2];
    MissedIsMissed(p, 2, 1);
    assert Missed(p, 2, 1) == [97, 97, 97, 98];
  }

  /** indexOf, with an omitted start or one that counts from the end */
  method IndexOf(s: seq<Unit>, str: seq<Unit>, startIndex: Option<int>) returns (r: int)
    requires WellFormed(s) && WellFormed(str)
    ensures var t, p, n := Decode(s), Decode(str), |Decode(s)|;
            var from := if startIndex.None? then 0 else if startIndex.value >= 0 then startIndex.value
                        else if startIndex.value >= -n then n + startIndex.value else 0;
            && r == Answer(t, p, from)
            && (r != -1 ==> from <= r && OccursAt(t, p, r))
            && (p != [] && Restartable(p) ==> IsLeftmost(t, p, from, r))
  {
    hide EncodeAll, Decode, WellFormed, CodePointAt, Offset, Scan, OccursAt, Restartable, IsLeftmost;
    ghost var t, p := Decode(s), Decode(str);
    EncodeDecode(s);
    EncodeDecode(str);
    OffsetEnds(s, t);
    OffsetEnds(str, p);
    EncodesNothing();
    OffsetGrows(str, p, 0, |p|);
    var start := 0;
    if startIndex.Some? {
      start := startIndex.value;
      if start < 0 {
        var n := Length(s);
        start := n + start;
      }
    }
    ghost var from: nat := if start < 0 then 0 else start;
    if str != [] {
      ScanAnswer(t, p, from);
    }
    ghost var j: nat := 0;
    var unicodeOffset: nat := 0;
    var nativeOffset: nat := 0;
    var matchingOffset: nat := 0;
    r := -1;
    while nativeOffset <= |s|
      invariant unicodeOffset <= |t| ==> nativeOffset == Offset(t, unicodeOffset)
      invariant unicodeOffset > |t| ==> nativeOffset > |s| && unicodeOffset == |t| + 1
      invariant str != [] ==> j < |p| && matchingOffset == Offset(p, j)
      invariant str != [] && j > 0 ==> r == unicodeOffset - j && unicodeOffset >= from
      invariant str != [] && unicodeOffset <= |t| ==> Scan(t, p, from, unicodeOffset, j) == Scan(t, p, from, 0, 0)
      invariant str != [] && unicodeOffset > |t| ==> Scan(t, p, from, 0, 0) == -1
      invariant str == [] && unicodeOffset <= |t| ==> matchingOffset == 0
      decreases |t| + 1 - unicodeOffset, j
    {
      ReadNext(s, t, unicodeOffset);
      var c := CodePointAt(s, nativeOffset);
      if str != [] {
        ScanStep(t, p, from, unicodeOffset, j);
        ReadNeedle(str, p, j);
      }
      if unicodeOffset >= start {
        var c2 := CodePointAt(str, matchingOffset);
        if c == c2 {
          if matchingOffset == 0 {
            r := unicodeOffset;
          }
          matchingOffset := matchingOffset + 1;
          if c2 >= MIN_SURROGATE_CODE_POINT {
            matchingOffset := matchingOffset + 1;
          }
          if matchingOffset == |str| {
            return r;
          }
          j := j + 1;
        } else if matchingOffset != 0 {
          r := -1;
          matchingOffset := 0;
          j := 0;
          if str != [] {
            ScanStep(t, p, from, unicodeOffset, j);
          }
          continue;
        }
      }
      nativeOffset := nativeOffset + 1;
      if c >= MIN_SURROGATE_CODE_POINT {
        nativeOffset := nativeOffset + 1;
      }
      unicodeOffset := unicodeOffset + 1;
    }
    if unicodeOffset <= |t| {
      OffsetGrows(s, t, unicodeOffset, |t|);
    }
    r := -1;
  }
}
