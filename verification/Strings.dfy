/** `str_split`: the parts between separators. */
module Splitting {

  /** `s` appended to the last part. */
  function Extend<T>(parts: seq<seq<T>>, s: seq<T>): (r: seq<seq<T>>)
    requires parts != []
    ensures |r| == |parts|
  {
    parts[..|parts| - 1] + [parts[|parts| - 1] + s]
  }

  lemma ExtendTwice<T>(parts: seq<seq<T>>, a: seq<T>, b: seq<T>)
    requires parts != []
    ensures Extend(Extend(parts, a), b) == Extend(parts, a + b)
    ensures Extend(parts, []) == parts
  {
    var l := |parts| - 1;
    assert parts[l] + a + b == parts[l] + (a + b) && parts[l] + [] == parts[l];
    assert Extend(parts, a)[..l] == parts[..l];
  }

  lemma ExtendLast<T>(before: seq<seq<T>>, last: seq<T>, s: seq<T>)
    ensures Extend(before + [last], s) == before + [last + s]
  {
    assert (before + [last])[..|before|] == before;
  }

  /** The parts of `text`, empty ones included. */
  function Split<T(==)>(text: seq<T>, sep: T): (parts: seq<seq<T>>)
    ensures parts != []
  {
    if text == [] then [[]]
    else
      var n := |text| - 1;
      if text[n] == sep then Split(text[..n], sep) + [[]] else Extend(Split(text[..n], sep), [text[n]])
  }

  function Join<T>(parts: seq<seq<T>>, sep: T): seq<T>
    requires parts != []
  {
    if |parts| == 1 then parts[0] else Join(parts[..|parts| - 1], sep) + [sep] + parts[|parts| - 1]
  }

  function Count<T(==)>(text: seq<T>, c: T): nat {
    if text == [] then 0 else Count(text[..|text| - 1], c) + if text[|text| - 1] == c then 1 else 0
  }

  ghost predicate NoneContains<T>(parts: seq<seq<T>>, sep: T) {
    forall i :: 0 <= i < |parts| ==> sep !in parts[i]
  }

  lemma JoinSnoc<T>(parts: seq<seq<T>>, last: seq<T>, sep: T)
    requires parts != []
    ensures Join(parts + [last], sep) == Join(parts, sep) + [sep] + last
  {
    assert (parts + [last])[..|parts|] == parts;
  }

  lemma JoinExtend<T>(parts: seq<seq<T>>, s: seq<T>, sep: T)
    requires parts != []
    ensures Join(Extend(parts, s), sep) == Join(parts, sep) + s
  {
    var l := |parts| - 1;
    assert parts == parts[..l] + [parts[l]];
    if l > 0 {
      JoinSnoc(parts[..l], parts[l], sep);
      JoinSnoc(parts[..l], parts[l] + s, sep);
    }
  }

  /**
   * Joining the parts gives the text back, no part contains the separator, and there is one more part than separators.
   */
  lemma {:induction false} SplitJoins<T>(text: seq<T>, sep: T)
    ensures var parts := Split(text, sep);
            Join(parts, sep) == text && NoneContains(parts, sep) && |parts| == Count(text, sep) + 1
  {
    hide Join;
    if text == [] {
      JoinOne([], sep);
    } else {
      var n := |text| - 1;
      SplitJoins(text[..n], sep);
      assert text == text[..n] + [text[n]];
      var before := Split(text[..n], sep);
      JoinSnoc(before, [], sep);
      JoinExtend(before, [text[n]], sep);
    }
  }

  lemma JoinOne<T>(s: seq<T>, sep: T)
    ensures Join([s], sep) == s
  {
  }

  lemma SplitSnoc<T>(text: seq<T>, c: T, sep: T)
    ensures Split(text + [c], sep) == if c == sep then Split(text, sep) + [[]] else Extend(Split(text, sep), [c])
  {
    assert (text + [c])[..|text|] == text;
  }

  /** Text without separators extends the last part. */
  lemma {:induction false} SplitPlain<T>(head: seq<T>, tail: seq<T>, sep: T)
    requires sep !in tail
    ensures Split(head + tail, sep) == Extend(Split(head, sep), tail)
    decreases |tail|
  {
    hide Split, Extend;
    var p := Split(head, sep);
    if tail == [] {
      assert head + tail == head;
      ExtendTwice(p, [], []);
    } else {
      var n := |tail| - 1;
      var front, c := tail[..n], tail[n];
      assert tail == front + [c];
      SplitPlain(head, front, sep);
      assert head + tail == (head + front) + [c];
      SplitSnoc(head + front, c, sep);
      ExtendTwice(p, front, [c]);
    }
  }

  /** The split is the only way to write the text as parts without separators, joined by separators. */
  lemma {:induction false} SplitUnique<T>(parts: seq<seq<T>>, sep: T)
    requires parts != [] && NoneContains(parts, sep)
    ensures Split(Join(parts, sep), sep) == parts
    decreases |parts|
  {
    hide Split, Extend;
    var l := |parts| - 1;
    var front, last := parts[..l], parts[l];
    assert parts == front + [last];
    if l == 0 {
      assert [] + last == last && front == [];
      SplitEmpty(sep);
      SplitPlain([], last, sep);
      ExtendLast(front, [], last);
      assert front + [[]] == [[]];
    } else {
      SplitUnique(front, sep);
      var head := Join(front, sep) + [sep];
      SplitSnoc(Join(front, sep), sep, sep);
      SplitPlain(head, last, sep);
      ExtendLast(front, [], last);
      assert [] + last == last;
    }
  }

  lemma SplitEmpty<T>(sep: T)
    ensures Split([], sep) == [[]]
  {
  }

  /** Splitting distributes over a separator. */
  lemma {:induction false} SplitAppend<T>(head: seq<T>, tail: seq<T>, sep: T)
    ensures Split(head + [sep] + tail, sep) == Split(head, sep) + Split(tail, sep)
    decreases |tail|
  {
    hide Split, Extend;
    if tail == [] {
      assert head + [sep] + tail == head + [sep];
      SplitSnoc(head, sep, sep);
      SplitEmpty<T>(sep);
    } else {
      var n := |tail| - 1;
      var front, c := tail[..n], tail[n];
      assert tail == front + [c];
      SplitAppend(head, front, sep);
      assert head + [sep] + tail == head + [sep] + front + [c];
      SplitSnoc(head + [sep] + front, c, sep);
      SplitSnoc(front, c, sep);
      var p, q := Split(head, sep), Split(front, sep);
      assert p + q + [[]] == p + (q + [[]]);
      ExtendAppend(p, q, [c]);
    }
  }

  lemma ExtendAppend<T>(p: seq<seq<T>>, q: seq<seq<T>>, s: seq<T>)
    requires q != []
    ensures Extend(p + q, s) == p + Extend(q, s)
  {
    assert (p + q)[..|p + q| - 1] == p + q[..|q| - 1];
  }

  /** Text without separators is one part. */
  lemma SplitOfPlain<T>(text: seq<T>, sep: T)
    requires sep !in text
    ensures Split(text, sep) == [text]
  {
    hide Split;
    SplitPlain([], text, sep);
    SplitEmpty<T>(sep);
    assert [] + text == text;
  }

  /** `str_split`, with its count of the parts. */
  method StrSplit(text: string, splitChar: char) returns (outSplits: seq<string>, outSplitQty: nat)
    ensures outSplits == Split(text, splitChar) && outSplitQty == |outSplits|
  {
    hide Split, Extend;
    outSplitQty := CountParts(text, splitChar);
    outSplits := [];
    var partStart := 0;
    SplitEmpty(splitChar);
    assert outSplits + [text[0..0]] == [[]];
    for i := 0 to |text|
      invariant partStart <= i && Split(text[..i], splitChar) == outSplits + [text[partStart..i]]
    {
      assert text[..i + 1] == text[..i] + [text[i]] && text[partStart..i + 1] == text[partStart..i] + [text[i]];
      SplitSnoc(text[..i], text[i], splitChar);
      ExtendLast(outSplits, text[partStart..i], [text[i]]);
      if text[i] == splitChar {
        outSplits := outSplits + [text[partStart..i]];
        partStart := i + 1;
        assert text[partStart..i + 1] == [];
      }
    }
    outSplits := outSplits + [text[partStart..|text|]];
    assert text[..|text|] == text;
    SplitJoins(text, splitChar);
  }

  /** The counting loop of `str_split`. */
  method CountParts(text: string, splitChar: char) returns (n: nat)
    ensures n == Count(text, splitChar) + 1
  {
    n := 1;
    for i := 0 to |text|
      invariant n == Count(text[..i], splitChar) + 1
    {
      assert text[..i + 1][..i] == text[..i];
      if text[i] == splitChar {
        n := n + 1;
      }
    }
    assert text[..|text|] == text;
  }
}

/** `str_replace`: all matches are collected first, then spliced in place with a running offset. */
module Replacing {
  import opened Arith

  predicate MatchAt(text: string, pat: string, i: int) {
    0 <= i && i + |pat| <= |text| && text[i..i + |pat|] == pat
  }

  /** All positions at or after `from` where the pattern occurs, overlapping occurrences included. */
  function Findings(text: string, pat: string, from: nat): (ps: seq<nat>)
    ensures forall k :: 0 <= k < |ps| ==> from <= ps[k] && ps[k] + |pat| <= |text|
    decreases |text| - from
  {
    if from + |pat| > |text| then []
    else if MatchAt(text, pat, from) then [from] + Findings(text, pat, from + 1)
    else Findings(text, pat, from + 1)
  }

  /** The findings are exactly the positions of matches. */
  lemma {:induction false} FindingsAreMatches(text: string, pat: string, from: nat, i: nat)
    requires from <= i
    ensures i in Findings(text, pat, from) <==> MatchAt(text, pat, i)
    decreases |text| - from
  {
    if from + |pat| <= |text| && from < i {
      FindingsAreMatches(text, pat, from + 1, i);
    }
  }

  function Splice(s: string, p: nat, m: nat, rep: string): string
    requires p + m <= |s|
  {
    s[..p] + rep + s[p + m..]
  }

  /** The shift after `k` replacements. */
  function Shift(k: nat, m: nat, r: nat): int {
    k * (r - m)
  }

  lemma NextShift(k: nat, m: nat, r: nat)
    requires k > 0
    ensures Shift(k, m, r) == Shift(k - 1, m, r) + r - m
  {
  }

  /** The shifted positions never fall before the start of the text. */
  predicate InBounds(ps: seq<nat>, m: nat, r: nat) {
    forall k :: 0 <= k < |ps| ==> ps[k] + Shift(k, m, r) >= 0
  }

  /** The first `k` rounds of the replacement loop. */
  function Spliced(text: string, ps: seq<nat>, m: nat, rep: string, k: nat): (s: string)
    requires k <= |ps| && InBounds(ps, m, |rep|) && forall j :: 0 <= j < |ps| ==> ps[j] + m <= |text|
    ensures |s| == |text| + Shift(k, m, |rep|)
  {
    if k == 0 then text
    else
      NextShift(k, m, |rep|);
      Splice(Spliced(text, ps, m, rep, k - 1), ps[k - 1] + Shift(k - 1, m, |rep|), m, rep)
  }

  /** What `str_replace` computes. */
  function Replaced(text: string, pat: string, rep: string): string
    requires InBounds(Findings(text, pat, 0), |pat|, |rep|)
  {
    var ps := Findings(text, pat, 0);
    Spliced(text, ps, |pat|, rep, |ps|)
  }

  // ----- the functional replacement -----

  /** Left-to-right replacement of matches, each search going on behind the last match. */
  function Greedy(text: string, pat: string, rep: string, from: nat): string
    requires pat != [] && from <= |text|
    decreases |text| - from
  {
    if from + |pat| > |text| then text[from..]
    else if MatchAt(text, pat, from) then rep + Greedy(text, pat, rep, from + |pat|)
    else [text[from]] + Greedy(text, pat, rep, from + 1)
  }

  /** Each match starts at or after the end of the one before. */
  ghost predicate Apart(ps: seq<nat>, m: nat, from: nat)
    decreases |ps|
  {
    ps == [] || (from <= ps[0] && Apart(ps[1..], m, ps[0] + m))
  }

  /** No two matches of the pattern overlap. */
  ghost predicate NoOverlap(text: string, pat: string) {
    Apart(Findings(text, pat, 0), |pat|, 0)
  }

  /** The text with the pieces at `ps` replaced. */
  function Assemble(text: string, ps: seq<nat>, m: nat, rep: string, from: nat): string
    requires from <= |text| && Apart(ps, m, from) && forall k :: 0 <= k < |ps| ==> ps[k] + m <= |text|
    decreases |ps|
  {
    if ps == [] then text[from..]
    else text[from..ps[0]] + rep + Assemble(text, ps[1..], m, rep, ps[0] + m)
  }

  lemma {:induction false} ApartBound(ps: seq<nat>, m: nat, from: nat, k: nat)
    requires Apart(ps, m, from) && k < |ps|
    ensures ps[k] >= from + k * m
    decreases |ps|
  {
    if k > 0 {
      ApartBound(ps[1..], m, ps[0] + m, k - 1);
      assert k * m == (k - 1) * m + m;
    }
  }

  /** The shifted positions stay inside the text when no matches overlap, or when the replacement is not shorter. */
  lemma BoundsHold(text: string, pat: string, r: nat)
    requires NoOverlap(text, pat) || r >= |pat|
    ensures InBounds(Findings(text, pat, 0), |pat|, r)
  {
    var ps, m := Findings(text, pat, 0), |pat|;
    forall k | 0 <= k < |ps|
      ensures ps[k] + Shift(k, m, r) >= 0
    {
      if r >= m {
        assert k * (r - m) >= 0;
      } else {
        ApartBound(ps, m, 0, k);
        assert k * (r - m) == k * r - k * m;
      }
    }
  }

  lemma SpliceStep(s: string, done: nat, tail: string, q: nat, m: nat, rep: string)
    requires done <= |s| && s[done..] == tail && q + m <= |tail|
    ensures var s', done' := Splice(s, done + q, m, rep), done + q + |rep|;
            done' <= |s'| && s'[..done'] == s[..done] + tail[..q] + rep && s'[done'..] == tail[q + m..]
  {
    assert tail[..q] == s[done..done + q];
    assert tail[q + m..] == s[done + q + m..];
  }

  /** Up to `done` the text `s` is finished, and behind it is what follows `end` in the original text. */
  ghost predicate Progress(text: string, goal: string, m: nat, rep: string, rest: seq<nat>, s: string, end: nat,
                           done: int) {
    && Apart(rest, m, end) && end <= |text| && (forall k :: 0 <= k < |rest| ==> rest[k] + m <= |text|)
    && 0 <= done <= |s| && s[done..] == text[end..]
    && goal == s[..done] + Assemble(text, rest, m, rep, end)
  }

  lemma ProgressStep(text: string, goal: string, m: nat, rep: string, rest: seq<nat>, s: string, end: nat, done: nat)
    requires Progress(text, goal, m, rep, rest, s, end, done) && rest != []
    ensures var p := done + rest[0] - end;
            && 0 <= p && p + m <= |s|
            && Progress(text, goal, m, rep, rest[1..], Splice(s, p, m, rep), rest[0] + m, p + |rep|)
  {
    var q := rest[0] - end;
    hide Splice;
    SpliceStep(s, done, text[end..], q, m, rep);
    assert text[end..][..q] == text[end..rest[0]];
    assert text[end..][q + m..] == text[rest[0] + m..];
    AssembleStep(text, rest, m, rep, end, s[..done]);
  }

  lemma AssembleStep(text: string, ps: seq<nat>, m: nat, rep: string, from: nat, done: string)
    requires ps != [] && from <= |text| && Apart(ps, m, from) && forall k :: 0 <= k < |ps| ==> ps[k] + m <= |text|
    ensures done + Assemble(text, ps, m, rep, from) ==
            (done + text[from..ps[0]] + rep) + Assemble(text, ps[1..], m, rep, ps[0] + m)
  {
  }

  function EndOf(ps: seq<nat>, m: nat, k: nat): nat
    requires k <= |ps|
  {
    if k == 0 then 0 else ps[k - 1] + m
  }

  /** With matches apart, the in-place splices build the text piece by piece. */
  lemma {:induction false} SplicedProgress(text: string, ps: seq<nat>, m: nat, rep: string, k: nat)
    requires k <= |ps| && Apart(ps, m, 0) && InBounds(ps, m, |rep|)
    requires forall j :: 0 <= j < |ps| ==> ps[j] + m <= |text|
    ensures Progress(text, Assemble(text, ps, m, rep, 0), m, rep, ps[k..], Spliced(text, ps, m, rep, k),
                     EndOf(ps, m, k), EndOf(ps, m, k) + Shift(k, m, |rep|))
  {
    hide Progress, Shift, Assemble, Apart, Spliced, Splice, InBounds;
    if k == 0 {
      NothingSpliced(text, ps, m, rep);
    } else {
      SplicedProgress(text, ps, m, rep, k - 1);
      var rest, goal := ps[k - 1..], Assemble(text, ps, m, rep, 0);
      var s, end := Spliced(text, ps, m, rep, k - 1), EndOf(ps, m, k - 1);
      var done := end + Shift(k - 1, m, |rep|);
      assert rest[1..] == ps[k..] && rest[0] == ps[k - 1];
      NextShift(k, m, |rep|);
      ProgressBounds(text, goal, m, rep, rest, s, end, done);
      ProgressStep(text, goal, m, rep, rest, s, end, done);
      SplicedNext(text, ps, m, rep, k);
    }
  }

  lemma NothingSpliced(text: string, ps: seq<nat>, m: nat, rep: string)
    requires Apart(ps, m, 0) && InBounds(ps, m, |rep|) && forall j :: 0 <= j < |ps| ==> ps[j] + m <= |text|
    ensures Progress(text, Assemble(text, ps, m, rep, 0), m, rep, ps[0..], Spliced(text, ps, m, rep, 0), 0,
                     Shift(0, m, |rep|))
  {
    NoShift(m, |rep|);
    assert ps[0..] == ps && text[..0] == [] && text[0..] == text;
  }

  lemma SplicedNext(text: string, ps: seq<nat>, m: nat, rep: string, k: nat)
    requires 0 < k <= |ps| && InBounds(ps, m, |rep|) && forall j :: 0 <= j < |ps| ==> ps[j] + m <= |text|
    ensures var s, p := Spliced(text, ps, m, rep, k - 1), ps[k - 1] + Shift(k - 1, m, |rep|);
            0 <= p && p + m <= |s| && Spliced(text, ps, m, rep, k) == Splice(s, p, m, rep)
  {
  }

  lemma ProgressBounds(text: string, goal: string, m: nat, rep: string, rest: seq<nat>, s: string, end: nat, done: int)
    requires Progress(text, goal, m, rep, rest, s, end, done)
    ensures 0 <= done
  {
  }

  lemma SplicedIsAssembled(text: string, ps: seq<nat>, m: nat, rep: string)
    requires Apart(ps, m, 0) && InBounds(ps, m, |rep|)
    requires forall j :: 0 <= j < |ps| ==> ps[j] + m <= |text|
    ensures Spliced(text, ps, m, rep, |ps|) == Assemble(text, ps, m, rep, 0)
  {
    SplicedProgress(text, ps, m, rep, |ps|);
    hide Spliced, Shift, Apart;
    assert ps[|ps|..] == [];
  }

  /** Skipping text without matches does not change the findings. */
  lemma {:induction false} FindingsSkip(text: string, pat: string, from: nat, upto: nat)
    requires from <= upto && forall i: nat :: from <= i < upto ==> !MatchAt(text, pat, i)
    ensures Findings(text, pat, from) == Findings(text, pat, upto)
    decreases upto - from
  {
    if from < upto {
      FindingsSkip(text, pat, from + 1, upto);
    }
  }

  /** Behind a match that overlaps no later one the next finding is behind its end. */
  lemma NextFinding(text: string, pat: string, from: nat)
    requires pat != [] && MatchAt(text, pat, from) && Apart(Findings(text, pat, from), |pat|, from)
    ensures Findings(text, pat, from) == [from] + Findings(text, pat, from + |pat|)
    ensures Apart(Findings(text, pat, from + |pat|), |pat|, from + |pat|)
  {
    hide Findings, Apart, MatchAt;
    var rest := Findings(text, pat, from + 1);
    FindingsCons(text, pat, from);
    ApartCons(from, rest, |pat|, from);
    forall i: nat | from + 1 <= i < from + |pat|
      ensures !MatchAt(text, pat, i)
    {
      FindingsAreMatches(text, pat, from + 1, i);
      if i in rest {
        ApartBelow(rest, |pat|, from + |pat|, i);
      }
    }
    FindingsSkip(text, pat, from + 1, from + |pat|);
  }

  lemma FindingsCons(text: string, pat: string, from: nat)
    requires MatchAt(text, pat, from)
    ensures Findings(text, pat, from) == [from] + Findings(text, pat, from + 1)
  {
  }

  lemma ApartCons(p: nat, ps: seq<nat>, m: nat, from: nat)
    ensures Apart([p] + ps, m, from) <==> from <= p && Apart(ps, m, p + m)
  {
    assert ([p] + ps)[1..] == ps;
  }

  lemma {:induction false} ApartBelow(ps: seq<nat>, m: nat, from: nat, i: nat)
    requires Apart(ps, m, from) && i in ps
    ensures from <= i
    decreases |ps|
  {
    if i != ps[0] {
      assert i in ps[1..];
      ApartBelow(ps[1..], m, ps[0] + m, i);
    }
  }

  lemma {:induction false} GreedyIsAssembled(text: string, pat: string, rep: string, from: nat)
    requires pat != [] && from <= |text| && Apart(Findings(text, pat, from), |pat|, from)
    ensures Greedy(text, pat, rep, from) == Assemble(text, Findings(text, pat, from), |pat|, rep, from)
    decreases |text| - from
  {
    hide Findings, MatchAt, Apart, Assemble;
    var ps := Findings(text, pat, from);
    if from + |pat| > |text| {
      NoFindings(text, pat, rep, from);
    } else if MatchAt(text, pat, from) {
      NextFinding(text, pat, from);
      GreedyIsAssembled(text, pat, rep, from + |pat|);
      AssembleHere(text, Findings(text, pat, from + |pat|), |pat|, rep, from);
    } else {
      NoMatchHere(text, pat, from);
      GreedyIsAssembled(text, pat, rep, from + 1);
      OneFurther(text, ps, |pat|, rep, from);
    }
  }

  lemma NoFindings(text: string, pat: string, rep: string, from: nat)
    requires from <= |text| < from + |pat|
    ensures Apart([], |pat|, from) && Findings(text, pat, from) == []
            && Assemble(text, [], |pat|, rep, from) == text[from..]
  {
  }

  lemma AssembleHere(text: string, ps: seq<nat>, m: nat, rep: string, from: nat)
    requires from + m <= |text| && Apart(ps, m, from + m) && forall k :: 0 <= k < |ps| ==> ps[k] + m <= |text|
    ensures Apart([from] + ps, m, from)
            && Assemble(text, [from] + ps, m, rep, from) == rep + Assemble(text, ps, m, rep, from + m)
  {
    assert ([from] + ps)[1..] == ps;
    assert text[from..from] + rep == rep;
  }

  lemma NoMatchHere(text: string, pat: string, from: nat)
    requires from + |pat| <= |text| && !MatchAt(text, pat, from) && Apart(Findings(text, pat, from), |pat|, from)
    ensures Findings(text, pat, from) == Findings(text, pat, from + 1)
    ensures Apart(Findings(text, pat, from + 1), |pat|, from + 1)
  {
    var ps := Findings(text, pat, from + 1);
    assert ps != [] ==> from + 1 <= ps[0];
  }

  lemma OneFurther(text: string, ps: seq<nat>, m: nat, rep: string, from: nat)
    requires from < |text| && Apart(ps, m, from + 1) && forall k :: 0 <= k < |ps| ==> ps[k] + m <= |text|
    ensures Apart(ps, m, from)
            && [text[from]] + Assemble(text, ps, m, rep, from + 1) == Assemble(text, ps, m, rep, from)
  {
    if ps == [] {
      assert [text[from]] + text[from + 1..] == text[from..];
    } else {
      var piece, rest := text[from + 1..ps[0]], Assemble(text, ps[1..], m, rep, ps[0] + m);
      assert [text[from]] + piece == text[from..ps[0]];
      assert [text[from]] + (piece + rep + rest) == [text[from]] + piece + rep + rest;
    }
  }

  /** Without overlapping matches `str_replace` is the functional left-to-right replacement. */
  lemma ReplaceIsGreedy(text: string, pat: string, rep: string)
    requires pat != [] && NoOverlap(text, pat)
    ensures InBounds(Findings(text, pat, 0), |pat|, |rep|) && Replaced(text, pat, rep) == Greedy(text, pat, rep, 0)
  {
    BoundsHold(text, pat, |rep|);
    var ps := Findings(text, pat, 0);
    SplicedIsAssembled(text, ps, |pat|, rep);
    GreedyIsAssembled(text, pat, rep, 0);
  }

  // ----- what happens when matches overlap -----

  function GreedyCount(text: string, pat: string, from: nat): nat
    requires pat != [] && from <= |text|
    decreases |text| - from
  {
    if from + |pat| > |text| then 0
    else if MatchAt(text, pat, from) then 1 + GreedyCount(text, pat, from + |pat|)
    else GreedyCount(text, pat, from + 1)
  }

  lemma {:induction false} GreedyLength(text: string, pat: string, rep: string, from: nat)
    requires pat != [] && from <= |text|
    ensures |Greedy(text, pat, rep, from)| == |text| - from + Shift(GreedyCount(text, pat, from), |pat|, |rep|)
    decreases |text| - from
  {
    hide Shift, MatchAt;
    if from + |pat| > |text| {
      NoShift(|pat|, |rep|);
    } else if MatchAt(text, pat, from) {
      GreedyLength(text, pat, rep, from + |pat|);
      NextShift(GreedyCount(text, pat, from), |pat|, |rep|);
    } else {
      GreedyLength(text, pat, rep, from + 1);
    }
  }

  lemma NoShift(m: nat, r: nat)
    ensures Shift(0, m, r) == 0
  {
  }

  /** The greedy scan takes every match exactly when none overlap. */
  lemma {:induction false} GreedyMisses(text: string, pat: string, from: nat)
    requires pat != [] && from <= |text|
    ensures GreedyCount(text, pat, from) <= |Findings(text, pat, from)|
    ensures GreedyCount(text, pat, from) == |Findings(text, pat, from)|
            ==> Apart(Findings(text, pat, from), |pat|, from)
    decreases |text| - from
  {
    hide MatchAt, Findings, Apart;
    if from + |pat| > |text| {
      NoFindings(text, pat, [], from);
    } else if MatchAt(text, pat, from) {
      GreedyMisses(text, pat, from + |pat|);
      FindingsShrink(text, pat, from + 1, from + |pat|);
      FindingsCons(text, pat, from);
      ApartCons(from, Findings(text, pat, from + 1), |pat|, from);
    } else {
      GreedyMisses(text, pat, from + 1);
      FindingsSame(text, pat, from);
    }
  }

  lemma FindingsSame(text: string, pat: string, from: nat)
    requires from + |pat| <= |text| && !MatchAt(text, pat, from)
    ensures Findings(text, pat, from) == Findings(text, pat, from + 1)
    ensures Apart(Findings(text, pat, from + 1), |pat|, from + 1) ==> Apart(Findings(text, pat, from), |pat|, from)
  {
  }

  lemma {:induction false} FindingsShrink(text: string, pat: string, from: nat, upto: nat)
    requires from <= upto
    ensures |Findings(text, pat, upto)| <= |Findings(text, pat, from)|
    ensures |Findings(text, pat, upto)| == |Findings(text, pat, from)|
            ==> Findings(text, pat, upto) == Findings(text, pat, from)
    decreases upto - from
  {
    hide MatchAt;
    if from < upto {
      FindingsShrink(text, pat, from + 1, upto);
    }
  }

  /**
   * For a replacement of another length than the pattern, `str_replace` equals the functional replacement exactly
   * when no two matches overlap: it replaces overlapped matches too, and so produces a text of another length.
   */
  lemma ReplaceIsGreedyIff(text: string, pat: string, rep: string)
    requires pat != [] && |rep| != |pat|
    ensures (InBounds(Findings(text, pat, 0), |pat|, |rep|) && Replaced(text, pat, rep) == Greedy(text, pat, rep, 0))
       <==> NoOverlap(text, pat)
  {
    if NoOverlap(text, pat) {
      ReplaceIsGreedy(text, pat, rep);
    } else if InBounds(Findings(text, pat, 0), |pat|, |rep|) {
      GreedyMisses(text, pat, 0);
      GreedyLength(text, pat, rep, 0);
      OtherShift(GreedyCount(text, pat, 0), |Findings(text, pat, 0)|, |pat|, |rep|);
      hide Findings, Greedy, GreedyCount, Spliced, Shift;
    }
  }

  lemma OtherShift(g: nat, n: nat, m: nat, r: nat)
    requires g < n && r != m
    ensures Shift(g, m, r) != Shift(n, m, r)
  {
    assert n * (r - m) == g * (r - m) + (n - g) * (r - m);
    if r > m {
      assert (n - g) * (r - m) > 0;
    } else {
      assert (n - g) * (m - r) > 0;
    }
  }

  // ----- replacements of the pattern's length -----

  /** The match at `p` covers position `i`, and no later one does. */
  ghost predicate LastCovers(text: string, pat: string, p: nat, i: nat) {
    MatchAt(text, pat, p) && p <= i < p + |pat| && forall q: nat :: p < q <= i ==> !MatchAt(text, pat, q)
  }

  ghost predicate Uncovered(text: string, pat: string, i: nat) {
    forall q: nat :: q <= i < q + |pat| ==> !MatchAt(text, pat, q)
  }

  /** The last of the first `k` positions whose match covers `i`. */
  function LastOf(ps: seq<nat>, k: nat, m: nat, i: nat): (r: Option<nat>)
    requires k <= |ps|
    ensures r.Some? ==> r.value <= i < r.value + m
  {
    if k == 0 then None
    else if ps[k - 1] <= i < ps[k - 1] + m then Some(ps[k - 1])
    else LastOf(ps, k - 1, m, i)
  }

  lemma NoShiftAtAll(m: nat)
    ensures forall k: nat :: Shift(k, m, m) == 0
  {
  }

  /** Rounds of equal length write over each other in order. */
  lemma {:induction false} SplicedAt(text: string, ps: seq<nat>, m: nat, rep: string, k: nat, i: nat)
    requires k <= |ps| && |rep| == m && i < |text| && forall j :: 0 <= j < |ps| ==> ps[j] + m <= |text|
    ensures InBounds(ps, m, m) && |Spliced(text, ps, m, rep, k)| == |text|
    ensures Spliced(text, ps, m, rep, k)[i] == match LastOf(ps, k, m, i) case Some(p) => rep[i - p] case None => text[i]
    decreases k
  {
    NoShiftAtAll(m);
    hide Shift;
    if k > 0 {
      SplicedAt(text, ps, m, rep, k - 1, i);
    }
  }

  /** Findings stand in increasing order. */
  lemma {:induction false} FindingsIncrease(text: string, pat: string, from: nat, j: nat, k: nat)
    requires j < k < |Findings(text, pat, from)|
    ensures Findings(text, pat, from)[j] < Findings(text, pat, from)[k]
    decreases |text| - from
  {
    hide MatchAt;
    if MatchAt(text, pat, from) {
      var rest := Findings(text, pat, from + 1);
      if j > 0 {
        FindingsIncrease(text, pat, from + 1, j - 1, k - 1);
      }
    } else {
      FindingsIncrease(text, pat, from + 1, j, k);
    }
  }

  lemma {:induction false} LastOfCovers(ps: seq<nat>, k: nat, m: nat, i: nat)
    requires k <= |ps|
    ensures match LastOf(ps, k, m, i)
            case Some(p) => exists j :: 0 <= j < k && ps[j] == p && forall l :: j < l < k ==> !(ps[l] <= i < ps[l] + m)
            case None => forall l :: 0 <= l < k ==> !(ps[l] <= i < ps[l] + m)
  {
    if k > 0 {
      LastOfCovers(ps, k - 1, m, i);
    }
  }

  lemma LastFinding(text: string, pat: string, i: nat)
    ensures var ps := Findings(text, pat, 0);
            match LastOf(ps, |ps|, |pat|, i)
            case Some(p) => LastCovers(text, pat, p, i)
            case None => Uncovered(text, pat, i)
  {
    var ps := Findings(text, pat, 0);
    var n, m := |ps|, |pat|;
    hide Findings, MatchAt, LastOf;
    LastOfCovers(ps, n, m, i);
    forall q: nat
      ensures q in ps <==> MatchAt(text, pat, q)
    {
      FindingsAreMatches(text, pat, 0, q);
    }
    if LastOf(ps, n, m, i).Some? {
      var p := LastOf(ps, n, m, i).value;
      var j :| 0 <= j < n && ps[j] == p && forall l :: j < l < n ==> !(ps[l] <= i < ps[l] + m);
      forall q: nat | p < q <= i
        ensures !MatchAt(text, pat, q)
      {
        NoLaterMatch(text, pat, i, j, q);
      }
    }
  }

  /** A match behind the last finding that covers `i` would itself cover `i`. */
  lemma NoLaterMatch(text: string, pat: string, i: nat, j: nat, q: nat)
    requires j < |Findings(text, pat, 0)| && Findings(text, pat, 0)[j] < q <= i < Findings(text, pat, 0)[j] + |pat|
    requires forall l :: j < l < |Findings(text, pat, 0)| ==>
               !(Findings(text, pat, 0)[l] <= i < Findings(text, pat, 0)[l] + |pat|)
    ensures !MatchAt(text, pat, q)
  {
    FindingsAreMatches(text, pat, 0, q);
    hide Findings, MatchAt;
    var ps := Findings(text, pat, 0);
    if l :| 0 <= l < |ps| && ps[l] == q {
      if l < j {
        FindingsIncrease(text, pat, 0, l, j);
      }
    }
  }

  /** For a replacement of the pattern's length each position shows what the last match that covers it writes there. */
  lemma SameLengthAt(text: string, pat: string, rep: string, i: nat)
    requires |rep| == |pat| && i < |text|
    ensures InBounds(Findings(text, pat, 0), |pat|, |rep|) && |Replaced(text, pat, rep)| == |text|
    ensures forall p: nat :: LastCovers(text, pat, p, i) ==> Replaced(text, pat, rep)[i] == rep[i - p]
    ensures Uncovered(text, pat, i) ==> Replaced(text, pat, rep)[i] == text[i]
  {
    var ps := Findings(text, pat, 0);
    SplicedAt(text, ps, |pat|, rep, |ps|, i);
    LastFinding(text, pat, i);
    var last := LastOf(ps, |ps|, |pat|, i);
    hide Findings, Spliced, MatchAt, LastOf;
    if last.Some? {
      forall p: nat | LastCovers(text, pat, p, i)
        ensures p == last.value
      {
        OneLast(text, pat, p, last.value, i);
      }
    }
  }

  /** The match that the left-to-right scan takes over position `i`. */
  function TakenAt(text: string, pat: string, from: nat, i: nat): (r: Option<nat>)
    requires pat != [] && from <= |text|
    ensures r.Some? ==> r.value <= i < r.value + |pat|
    decreases |text| - from
  {
    if from + |pat| > |text| || i < from then None
    else if MatchAt(text, pat, from) then (if i < from + |pat| then Some(from) else TakenAt(text, pat, from + |pat|, i))
    else TakenAt(text, pat, from + 1, i)
  }

  lemma {:induction false} GreedyAt(text: string, pat: string, rep: string, from: nat, i: nat)
    requires pat != [] && |rep| == |pat| && from <= i < |text|
    ensures |Greedy(text, pat, rep, from)| == |text| - from
    ensures match TakenAt(text, pat, from, i)
            case Some(g) => MatchAt(text, pat, g) && Greedy(text, pat, rep, from)[i - from] == rep[i - g]
            case None => Greedy(text, pat, rep, from)[i - from] == text[i]
    decreases |text| - from
  {
    GreedyLength(text, pat, rep, from);
    NoShiftAtAll(|pat|);
    hide Shift, GreedyCount, MatchAt;
    if from + |pat| <= |text| {
      if MatchAt(text, pat, from) {
        if from + |pat| <= i {
          GreedyAt(text, pat, rep, from + |pat|, i);
        }
      } else if from < i {
        GreedyAt(text, pat, rep, from + 1, i);
      } else {
        TakenBehind(text, pat, from + 1, i);
      }
    }
  }

  lemma TakenBehind(text: string, pat: string, from: nat, i: nat)
    requires pat != [] && i < from <= |text|
    ensures TakenAt(text, pat, from, i) == None
  {
  }

  /** What the scan writes at `i`, in terms of the positions of matches. */
  function ScanWrites(text: string, pat: string, rep: string, i: nat): char
    requires pat != [] && |rep| == |pat| && i < |text|
  {
    match TakenAt(text, pat, 0, i)
    case Some(g) => rep[i - g]
    case None => text[i]
  }

  /** Where the last match over a position is not the one that the scan takes, both put the same character there. */
  ghost predicate SameWrites(text: string, pat: string, rep: string, i: nat)
    requires pat != [] && |rep| == |pat| && i < |text|
  {
    forall p: nat :: LastCovers(text, pat, p, i) && TakenAt(text, pat, 0, i) != Some(p) ==>
      rep[i - p] == ScanWrites(text, pat, rep, i)
  }

  lemma SamePositions(text: string, pat: string, rep: string)
    requires pat != [] && |rep| == |pat|
    ensures InBounds(Findings(text, pat, 0), |pat|, |rep|)
    ensures Replaced(text, pat, rep) == Greedy(text, pat, rep, 0)
            <==> forall i: nat :: i < |text| ==> SameWrites(text, pat, rep, i)
  {
    SameSizes(text, pat, rep);
    hide Findings, Spliced, Greedy, MatchAt, Replaced, InBounds, SameWrites;
    forall i: nat | i < |text|
      ensures Replaced(text, pat, rep)[i] == Greedy(text, pat, rep, 0)[i] <==> SameWrites(text, pat, rep, i)
    {
      SameAt(text, pat, rep, i);
    }
  }

  lemma SameSizes(text: string, pat: string, rep: string)
    requires pat != [] && |rep| == |pat|
    ensures InBounds(Findings(text, pat, 0), |pat|, |rep|)
    ensures |Replaced(text, pat, rep)| == |text| == |Greedy(text, pat, rep, 0)|
  {
    BoundsHold(text, pat, |rep|);
    GreedyLength(text, pat, rep, 0);
    NoShiftAtAll(|pat|);
  }

  lemma SameAt(text: string, pat: string, rep: string, i: nat)
    requires pat != [] && |rep| == |pat| && i < |text|
    ensures InBounds(Findings(text, pat, 0), |pat|, |rep|)
    ensures |Replaced(text, pat, rep)| == |text| == |Greedy(text, pat, rep, 0)|
    ensures Replaced(text, pat, rep)[i] == Greedy(text, pat, rep, 0)[i] <==> SameWrites(text, pat, rep, i)
  {
    SameSizes(text, pat, rep);
    SameLengthAt(text, pat, rep, i);
    ScanAt(text, pat, rep, i);
    LastFinding(text, pat, i);
    var last := LastOf(Findings(text, pat, 0), |Findings(text, pat, 0)|, |pat|, i);
    hide Findings, Spliced, Greedy, MatchAt, Replaced, InBounds, TakenAt, LastOf, LastCovers, Uncovered, SameWrites,
      ScanWrites;
    if last.Some? {
      WritesIff(text, pat, rep, i, last.value);
    } else {
      NothingWritten(text, pat, rep, i);
    }
  }

  lemma ScanAt(text: string, pat: string, rep: string, i: nat)
    requires pat != [] && |rep| == |pat| && i < |text|
    ensures |Greedy(text, pat, rep, 0)| == |text| && Greedy(text, pat, rep, 0)[i] == ScanWrites(text, pat, rep, i)
  {
    GreedyAt(text, pat, rep, 0, i);
  }

  lemma WritesIff(text: string, pat: string, rep: string, i: nat, p: nat)
    requires pat != [] && |rep| == |pat| && i < |text| && LastCovers(text, pat, p, i)
    ensures p <= i < p + |pat| && (rep[i - p] == ScanWrites(text, pat, rep, i) <==> SameWrites(text, pat, rep, i))
  {
    hide TakenAt, MatchAt;
    forall q: nat | LastCovers(text, pat, q, i)
      ensures q == p
    {
      OneLast(text, pat, q, p, i);
    }
  }

  lemma NothingWritten(text: string, pat: string, rep: string, i: nat)
    requires pat != [] && |rep| == |pat| && i < |text| && Uncovered(text, pat, i)
    ensures ScanWrites(text, pat, rep, i) == text[i] && SameWrites(text, pat, rep, i)
  {
    GreedyAt(text, pat, rep, 0, i);
    hide TakenAt, MatchAt, Greedy;
  }

  lemma OneLast(text: string, pat: string, p: nat, q: nat, i: nat)
    requires LastCovers(text, pat, p, i) && LastCovers(text, pat, q, i)
    ensures p == q
  {
    hide MatchAt;
  }

  // ----- the same text in one pass -----

  /**
   * The output of one pass over the matches: in front of each the text since the last one is copied, or, when they
   * overlap, as many characters are taken back from the output; then the replacement follows.
   */
  function OnePass(text: string, ps: seq<nat>, m: nat, rep: string, k: nat): (out: string)
    requires k <= |ps| && InBounds(ps, m, |rep|) && forall j :: 0 <= j < |ps| ==> ps[j] + m <= |text|
    ensures |out| == EndOf(ps, m, k) + Shift(k, m, |rep|)
  {
    NoShift(m, |rep|);
    if k == 0 then []
    else
      NextShift(k, m, |rep|);
      var out, end, p := OnePass(text, ps, m, rep, k - 1), EndOf(ps, m, k - 1), ps[k - 1];
      assert p + Shift(k - 1, m, |rep|) >= 0;
      (if end <= p then out + text[end..p] else out[..|out| - (end - p)]) + rep
  }

  /** The splices in place leave the output of the pass, and behind it the text behind the last match. */
  lemma {:induction false} SplicedIsOnePass(text: string, ps: seq<nat>, m: nat, rep: string, k: nat)
    requires k <= |ps| && InBounds(ps, m, |rep|) && forall j :: 0 <= j < |ps| ==> ps[j] + m <= |text|
    requires forall i, j :: 0 <= i < j < |ps| ==> ps[i] < ps[j]
    ensures EndOf(ps, m, k) <= |text|
    ensures Spliced(text, ps, m, rep, k) == OnePass(text, ps, m, rep, k) + text[EndOf(ps, m, k)..]
  {
    hide Shift, Splice, InBounds, Spliced, OnePass;
    if k == 0 {
      NothingPassed(text, ps, m, rep);
    } else {
      SplicedIsOnePass(text, ps, m, rep, k - 1);
      SplicedNext(text, ps, m, rep, k);
      PassedNext(text, ps, m, rep, k);
      NextShift(k, m, |rep|);
      SpliceOutput(OnePass(text, ps, m, rep, k - 1), text, EndOf(ps, m, k - 1), ps[k - 1], m, rep);
    }
  }

  lemma NothingPassed(text: string, ps: seq<nat>, m: nat, rep: string)
    requires InBounds(ps, m, |rep|) && forall j :: 0 <= j < |ps| ==> ps[j] + m <= |text|
    ensures Spliced(text, ps, m, rep, 0) == OnePass(text, ps, m, rep, 0) + text[0..]
  {
    assert text[0..] == text;
  }

  lemma PassedNext(text: string, ps: seq<nat>, m: nat, rep: string, k: nat)
    requires 0 < k <= |ps| && InBounds(ps, m, |rep|) && forall j :: 0 <= j < |ps| ==> ps[j] + m <= |text|
    ensures var out, end, p := OnePass(text, ps, m, rep, k - 1), EndOf(ps, m, k - 1), ps[k - 1];
            && (end > p ==> |out| >= end - p)
            && OnePass(text, ps, m, rep, k) == (if end <= p then out + text[end..p] else out[..|out| - (end - p)]) + rep
            && |out| == end + Shift(k - 1, m, |rep|)
  {
  }

  /** One splice into the output and the text behind it. */
  lemma SpliceOutput(out: string, text: string, end: nat, p: nat, m: nat, rep: string)
    requires end <= p + m <= |text| && end <= |text| && (end > p ==> |out| >= end - p)
    ensures var q := |out| + p - end;
            && 0 <= q && q + m <= |out + text[end..]|
            && Splice(out + text[end..], q, m, rep)
               == (if end <= p then out + text[end..p] else out[..|out| - (end - p)]) + rep + text[p + m..]
  {
    var s, q := out + text[end..], |out| + p - end;
    assert s[q + m..] == text[p + m..];
    if end <= p {
      assert s[..q] == out + text[end..p];
    } else {
      assert s[..q] == out[..q];
    }
  }

  /** `str_replace` on every text, pattern and replacement whose shifted matches stay inside the text. */
  lemma ReplacedInOnePass(text: string, pat: string, rep: string)
    requires InBounds(Findings(text, pat, 0), |pat|, |rep|)
    ensures var ps := Findings(text, pat, 0);
            var end := EndOf(ps, |pat|, |ps|);
            end <= |text| && Replaced(text, pat, rep) == OnePass(text, ps, |pat|, rep, |ps|) + text[end..]
  {
    var ps := Findings(text, pat, 0);
    forall i, j | 0 <= i < j < |ps|
      ensures ps[i] < ps[j]
    {
      FindingsIncrease(text, pat, 0, i, j);
    }
    hide Findings;
    SplicedIsOnePass(text, ps, |pat|, rep, |ps|);
  }

  // ----- the distances of overlapping matches -----

  /** The scan takes the match at `g` and passes over the one at `p`, which begins inside it. */
  ghost predicate PassedOver(text: string, pat: string, g: nat, p: nat)
    requires pat != []
  {
    TakenAt(text, pat, 0, g) == Some(g) && g < p < g + |pat| && MatchAt(text, pat, p)
  }

  /** The distance from `p` to the next match, from `e` on and at most the length of the pattern. */
  function Gap(text: string, pat: string, p: nat, e: nat): (d: nat)
    requires e <= |pat|
    ensures e <= d <= |pat|
    ensures forall q: nat :: p + e <= q < p + d ==> !MatchAt(text, pat, q)
    ensures d < |pat| ==> MatchAt(text, pat, p + d)
    decreases |pat| - e
  {
    if e == |pat| || MatchAt(text, pat, p + e) then e else Gap(text, pat, p, e + 1)
  }

  /** What the scan writes behind a taken match that begins `d` earlier: the rest of the replacement, then the text. */
  function Continued(pat: string, rep: string, d: nat, x: nat): char
    requires x < |rep| == |pat|
  {
    if x + d < |rep| then rep[x + d] else pat[x]
  }

  /**
   * The replacement tolerates a match `d` behind a taken one, with the next match `e` behind it: up to there it
   * repeats itself `d` further on, and behind the taken match it is as the pattern.
   */
  ghost predicate Tolerates(pat: string, rep: string, d: nat, e: nat)
    requires |rep| == |pat| && e <= |pat|
  {
    forall x: nat :: x < e ==> rep[x] == Continued(pat, rep, d, x)
  }

  /** A taken match is taken over its whole length. */
  lemma {:induction false} TakenWhole(text: string, pat: string, from: nat, i: nat, j: nat)
    requires pat != [] && from <= |text| && TakenAt(text, pat, from, i).Some?
    requires TakenAt(text, pat, from, i).value <= j < TakenAt(text, pat, from, i).value + |pat|
    ensures TakenAt(text, pat, from, j) == TakenAt(text, pat, from, i)
    ensures from <= TakenAt(text, pat, from, i).value && MatchAt(text, pat, TakenAt(text, pat, from, i).value)
    decreases |text| - from
  {
    hide MatchAt;
    if MatchAt(text, pat, from) {
      if i >= from + |pat| {
        TakenWhole(text, pat, from + |pat|, i, j);
      }
    } else {
      TakenWhole(text, pat, from + 1, i, j);
    }
  }

  /** The start of a match lies in one that the scan takes. */
  lemma {:induction false} MatchIsCovered(text: string, pat: string, from: nat, p: nat)
    requires pat != [] && from <= p && p + |pat| <= |text| && MatchAt(text, pat, p)
    ensures TakenAt(text, pat, from, p).Some?
    decreases |text| - from
  {
    hide MatchAt;
    if MatchAt(text, pat, from) {
      if p >= from + |pat| {
        MatchIsCovered(text, pat, from + |pat|, p);
      }
    } else {
      MatchIsCovered(text, pat, from + 1, p);
    }
  }

  /**
   * Over the part of a match that was passed over and that no later match covers, the scan still writes the taken one.
   */
  lemma ScanOverPassed(text: string, pat: string, g: nat, p: nat, i: nat)
    requires pat != [] && PassedOver(text, pat, g, p) && p <= i < p + |pat| && LastCovers(text, pat, p, i)
    ensures TakenAt(text, pat, 0, i) == if i < g + |pat| then Some(g) else None
  {
    hide MatchAt, TakenAt;
    TakenWhole(text, pat, 0, g, p);
    if i < g + |pat| {
      TakenWhole(text, pat, 0, g, i);
    } else if TakenAt(text, pat, 0, i).Some? {
      var h := TakenAt(text, pat, 0, i).value;
      TakenWhole(text, pat, 0, i, i);
      if h <= p {
        TakenWhole(text, pat, 0, i, p);
      }
    }
  }

  lemma MatchLetters(text: string, pat: string, p: nat, x: nat)
    requires MatchAt(text, pat, p) && x < |pat|
    ensures p + |pat| <= |text| && text[p + x] == pat[x]
  {
    assert text[p..p + |pat|][x] == text[p + x];
  }

  /** Up to the next match this one is the last over its positions. */
  lemma LastUpToGap(text: string, pat: string, p: nat, x: nat)
    requires pat != [] && MatchAt(text, pat, p) && x < Gap(text, pat, p, 1)
    ensures LastCovers(text, pat, p, p + x)
  {
    hide MatchAt;
  }

  /** What the scan writes over a match that was passed over. */
  lemma ScanContinues(text: string, pat: string, rep: string, g: nat, p: nat, x: nat)
    requires pat != [] && |rep| == |pat| && PassedOver(text, pat, g, p) && x < |pat| && p + x < |text|
    requires TakenAt(text, pat, 0, p + x) == if p + x < g + |pat| then Some(g) else None
    ensures ScanWrites(text, pat, rep, p + x) == Continued(pat, rep, p - g, x)
  {
    MatchLetters(text, pat, p, x);
    hide MatchAt, TakenAt;
  }

  lemma PassedBounds(text: string, pat: string, g: nat, p: nat)
    requires pat != [] && PassedOver(text, pat, g, p)
    ensures g < p && MatchAt(text, pat, p)
  {
  }

  /** One letter of a match that was passed over. */
  lemma PassedLetter(text: string, pat: string, rep: string, g: nat, p: nat, x: nat)
    requires pat != [] && |rep| == |pat| && PassedOver(text, pat, g, p) && x < Gap(text, pat, p, 1)
    ensures p + x < |text|
    ensures SameWrites(text, pat, rep, p + x) <==> rep[x] == Continued(pat, rep, p - g, x)
  {
    hide PassedOver, Gap, MatchAt, TakenAt, LastCovers, ScanWrites, SameWrites, Continued;
    PassedBounds(text, pat, g, p);
    MatchLetters(text, pat, p, x);
    LastUpToGap(text, pat, p, x);
    ScanOverPassed(text, pat, g, p, p + x);
    ScanContinues(text, pat, rep, g, p, x);
    WritesIff(text, pat, rep, p + x, p);
  }

  /** Where the two differ, a match was passed over. */
  lemma PassedAt(text: string, pat: string, rep: string, i: nat) returns (g: nat, p: nat)
    requires pat != [] && |rep| == |pat| && i < |text| && !SameWrites(text, pat, rep, i)
    ensures PassedOver(text, pat, g, p) && p <= i < p + Gap(text, pat, p, 1)
  {
    hide MatchAt, TakenAt, ScanWrites;
    p :| LastCovers(text, pat, p, i) && TakenAt(text, pat, 0, i) != Some(p)
         && rep[i - p] != ScanWrites(text, pat, rep, i);
    MatchInside(text, pat, p);
    MatchIsCovered(text, pat, 0, p);
    g := TakenAt(text, pat, 0, p).value;
    TakenWhole(text, pat, 0, p, g);
    if g == p {
      TakenWhole(text, pat, 0, p, i);
    }
  }

  lemma MatchInside(text: string, pat: string, p: nat)
    requires MatchAt(text, pat, p)
    ensures p + |pat| <= |text|
  {
  }

  /** The replacement tolerates the distances at which matches begin inside a taken one. */
  ghost predicate ToleratesOverlaps(text: string, pat: string, rep: string)
    requires pat != [] && |rep| == |pat|
  {
    forall g: nat, p: nat :: PassedOver(text, pat, g, p) ==> Tolerates(pat, rep, p - g, Gap(text, pat, p, 1))
  }

  lemma DiffersIntolerant(text: string, pat: string, rep: string, i: nat)
    requires pat != [] && |rep| == |pat| && i < |text| && !SameWrites(text, pat, rep, i)
    ensures !ToleratesOverlaps(text, pat, rep)
  {
    hide SameWrites, PassedOver, Gap, MatchAt, Continued;
    var g, p := PassedAt(text, pat, rep, i);
    PassedBounds(text, pat, g, p);
    var x, d := i - p, p - g;
    assert p + x == i;
    PassedLetter(text, pat, rep, g, p, x);
    assert rep[x] != Continued(pat, rep, d, x);
    assert !Tolerates(pat, rep, d, Gap(text, pat, p, 1));
  }

  lemma SameTolerated(text: string, pat: string, rep: string, g: nat, p: nat)
    requires pat != [] && |rep| == |pat| && PassedOver(text, pat, g, p)
    requires forall i: nat :: i < |text| ==> SameWrites(text, pat, rep, i)
    ensures g < p && Tolerates(pat, rep, p - g, Gap(text, pat, p, 1))
  {
    hide SameWrites, PassedOver, Gap, MatchAt, Continued;
    PassedBounds(text, pat, g, p);
    var d, e := p - g, Gap(text, pat, p, 1);
    forall x: nat | x < e
      ensures rep[x] == Continued(pat, rep, d, x)
    {
      PassedLetter(text, pat, rep, g, p, x);
      assert SameWrites(text, pat, rep, p + x);
    }
  }

  /**
   * For a replacement of the pattern's length, `str_replace` equals the functional replacement exactly when the
   * replacement tolerates the distances at which matches begin inside a taken one.
   */
  lemma SameLengthIff(text: string, pat: string, rep: string)
    requires pat != [] && |rep| == |pat|
    ensures InBounds(Findings(text, pat, 0), |pat|, |rep|)
    ensures Replaced(text, pat, rep) == Greedy(text, pat, rep, 0) <==> ToleratesOverlaps(text, pat, rep)
  {
    SamePositions(text, pat, rep);
    hide Findings, Replaced, Greedy, InBounds, SameWrites, PassedOver, Gap, MatchAt, Tolerates, ToleratesOverlaps;
    if i: nat :| i < |text| && !SameWrites(text, pat, rep, i) {
      DiffersIntolerant(text, pat, rep, i);
    } else {
      AllTolerated(text, pat, rep);
    }
  }

  lemma AllTolerated(text: string, pat: string, rep: string)
    requires pat != [] && |rep| == |pat| && forall i: nat :: i < |text| ==> SameWrites(text, pat, rep, i)
    ensures ToleratesOverlaps(text, pat, rep)
  {
    hide SameWrites, PassedOver, Gap, MatchAt, Tolerates;
    forall g: nat, p: nat | PassedOver(text, pat, g, p)
      ensures g < p && Tolerates(pat, rep, p - g, Gap(text, pat, p, 1))
    {
      SameTolerated(text, pat, rep, g, p);
    }
  }

  /** Shorter replacements of overlapping matches can shift before the text: "aaaa" with "aa" replaced by "". */
  lemma BeforeTextExample()
    ensures Findings("aaaa", "aa", 0) == [0, 1, 2] && 1 + Shift(1, 2, 0) == -1
    ensures !InBounds(Findings("aaaa", "aa", 0), 2, 0)
  {
    var t, p := "aaaa", "aa";
    assert t[0..2] == p && t[1..3] == p && t[2..4] == p;
    assert MatchAt(t, p, 0) && MatchAt(t, p, 1) && MatchAt(t, p, 2);
    assert Findings(t, p, 3) == [];
    assert Findings(t, p, 2) == [2];
    assert Findings(t, p, 1) == [1, 2];
    var ps := Findings(t, p, 0);
    assert ps == [0, 1, 2];
    assert ps[1] + Shift(1, 2, 0) < 0;
  }

  lemma OverlapFindings()
    ensures MatchAt("aaa", "aa", 0) && Findings("aaa", "aa", 0) == [0, 1]
  {
    var t, p := "aaa", "aa";
    assert t[0..2] == p && t[1..3] == p;
    assert MatchAt(t, p, 0) && MatchAt(t, p, 1);
    assert Findings(t, p, 2) == [];
    assert Findings(t, p, 1) == [1];
  }

  /** Overlapping matches: replacing "aa" by "b" in "aaa" gives "b", where the left-to-right replacement gives "ba". */
  lemma OverlapExample()
    ensures InBounds(Findings("aaa", "aa", 0), 2, 1)
    ensures Replaced("aaa", "aa", "b") == "b" && Greedy("aaa", "aa", "b", 0) == "ba"
  {
    var t, p, r := "aaa", "aa", "b";
    OverlapFindings();
    hide Findings;
    var ps: seq<nat> := [0, 1];
    assert Spliced(t, ps, 2, r, 0) == t;
    assert Spliced(t, ps, 2, r, 1) == Splice(t, 0, 2, r) == "ba";
    assert Spliced(t, ps, 2, r, 2) == Splice("ba", 0, 2, r) == "b";
    assert Greedy(t, p, r, 2) == t[2..] == "a";
  }

  // ----- str_replace on a NUL-terminated buffer -----

  const MAX_FINDINGS := 1024

  /** The buffer holds the text `s` and its terminator. */
  ghost predicate Holds(a: array<char>, s: string)
    reads a
  {
    '\0' !in s && |s| < a.Length && a[..|s|] == s && a[|s|] == '\0'
  }

  /** `str_length` from position `from` of the buffer. */
  method StrLength(a: array<char>, from: nat, ghost s: string) returns (n: nat)
    requires Holds(a, s) && from <= |s|
    ensures from + n == |s|
  {
    n := 0;
    while a[from + n] != '\0'
      invariant from + n <= |s|
      decreases |s| - n
    {
      assert a[..|s|][from + n] == s[from + n];
      n := n + 1;
    }
  }

  /** Characters and a terminator written at `p`. */
  method WriteTerminated(a: array<char>, p: nat, w: string)
    requires p + |w| < a.Length
    modifies a
    ensures a[..p + |w|] == old(a[..p]) + w && a[p + |w|] == '\0'
    ensures a[p + |w| + 1..] == old(a[p + |w| + 1..])
  {
    for j := 0 to |w|
      invariant a[..p + j] == old(a[..p]) + w[..j]
      invariant a[p + j..] == old(a[p + j..])
    {
      a[p + j] := w[j];
      assert a[p + j + 1..] == old(a[p + j + 1..]);
    }
    a[p + |w|] := '\0';
    assert a[..p + |w|] == old(a[..p]) + w;
  }

  /** One round of the replacement loop: in place, the `m` characters at `p` give way to `rep`. */
  method SpliceInPlace(a: array<char>, p: nat, m: nat, rep: string, ghost s: string)
    requires Holds(a, s) && p + m <= |s| && |s| - m + |rep| < a.Length && '\0' !in rep
    modifies a
    ensures Holds(a, Splice(s, p, m, rep))
  {
    if m == |rep| {
      Overwrite(a, p, rep, s);
    } else {
      var n := StrLength(a, p, s);
      var tail := a[p + m..p + n];
      assert tail == s[p + m..] by {
        assert a[..|s|][p + m..] == s[p + m..];
      }
      assert a[..p] == s[..p] by {
        assert a[..|s|][..p] == s[..p];
      }
      WriteTerminated(a, p, rep);
      WriteTerminated(a, p + |rep|, tail);
      assert a[..p + |rep| + |tail|] == Splice(s, p, m, rep);
    }
  }

  /** A replacement of the pattern's length is written over the match. */
  method Overwrite(a: array<char>, p: nat, rep: string, ghost s: string)
    requires Holds(a, s) && p + |rep| <= |s| && '\0' !in rep
    modifies a
    ensures Holds(a, Splice(s, p, |rep|, rep))
  {
    for j := 0 to |rep|
      invariant a[|s|] == '\0'
      invariant forall k :: 0 <= k < |s| ==> a[k] == if p <= k < p + j then rep[k - p] else s[k]
    {
      a[p + j] := rep[j];
    }
    assert a[..|s|] == Splice(s, p, |rep|, rep);
  }

  /** The search loop of `str_replace`. */
  method CollectFindings(text: string, pat: string) returns (ps: seq<nat>)
    requires |pat| <= |text|
    ensures ps == Findings(text, pat, 0)
  {
    ps := [];
    var i := 0;
    while i <= |text| - |pat|
      invariant i <= |text| - |pat| + 1
      invariant Findings(text, pat, 0) == ps + Findings(text, pat, i)
    {
      if text[i..i + |pat|] == pat {
        assert ps + ([i] + Findings(text, pat, i + 1)) == (ps + [i]) + Findings(text, pat, i + 1);
        ps := ps + [i];
      }
      i := i + 1;
    }
    assert ps + [] == ps;
  }

  /** Every text between the first and the last of `n` rounds fits, with its terminator. */
  ghost predicate RoomFor(length: nat, n: nat, m: nat, r: nat, room: nat) {
    forall k: nat :: k <= n ==> length + Shift(k, m, r) < room
  }

  /** `str_replace`; at most 1024 matches, and every intermediate text fits the buffer. */
  method StrReplace(a: array<char>, searchText: string, replacedBy: string, ghost text: string)
    requires Holds(a, text) && '\0' !in searchText && '\0' !in replacedBy
    requires |Findings(text, searchText, 0)| <= MAX_FINDINGS
    requires InBounds(Findings(text, searchText, 0), |searchText|, |replacedBy|)
    requires RoomFor(|text|, |Findings(text, searchText, 0)|, |searchText|, |replacedBy|, a.Length)
    modifies a
    ensures Holds(a, Replaced(text, searchText, replacedBy))
  {
    var textLen := StrLength(a, 0, text);
    var m := |searchText|;
    if m > textLen {
      return;
    }
    assert a[..textLen] == text;
    var ps := CollectFindings(a[..textLen], searchText);
    FindingsInside(text, searchText);
    hide Findings, Spliced, InBounds, Holds, Shift, RoomFor;
    ReplaceAll(a, ps, m, replacedBy, text);
  }

  lemma FindingsInside(text: string, pat: string)
    ensures forall j :: 0 <= j < |Findings(text, pat, 0)| ==> Findings(text, pat, 0)[j] + |pat| <= |text|
  {
  }

  /** The replacement loop, with its running offset. */
  method ReplaceAll(a: array<char>, ps: seq<nat>, m: nat, rep: string, ghost text: string)
    requires Holds(a, text) && '\0' !in rep && InBounds(ps, m, |rep|)
    requires forall j :: 0 <= j < |ps| ==> ps[j] + m <= |text|
    requires RoomFor(|text|, |ps|, m, |rep|, a.Length)
    modifies a
    ensures Holds(a, Spliced(text, ps, m, rep, |ps|))
  {
    var offset := 0;
    NoRounds(text, ps, m, rep);
    ghost var s := text;
    hide Spliced, InBounds, Holds, Splice, Shift, RoomFor;
    for k := 0 to |ps|
      invariant offset == Shift(k, m, |rep|) && s == Spliced(text, ps, m, rep, k) && Holds(a, s)
    {
      RoundOf(text, ps, m, rep, k, a.Length);
      var p: nat := ps[k] + offset;
      SpliceInPlace(a, p, m, rep, s);
      s := Splice(s, p, m, rep);
      offset := offset + |rep| - m;
    }
  }

  /** One round stays inside the text and the buffer, and is the next splice. */
  lemma RoundOf(text: string, ps: seq<nat>, m: nat, rep: string, k: nat, room: nat)
    requires k < |ps| && InBounds(ps, m, |rep|) && forall j :: 0 <= j < |ps| ==> ps[j] + m <= |text|
    requires RoomFor(|text|, |ps|, m, |rep|, room)
    ensures var s, p := Spliced(text, ps, m, rep, k), ps[k] + Shift(k, m, |rep|);
            && 0 <= p && p + m <= |s| && |s| - m + |rep| < room
            && Spliced(text, ps, m, rep, k + 1) == Splice(s, p, m, rep)
    ensures Shift(k + 1, m, |rep|) == Shift(k, m, |rep|) + |rep| - m
  {
    NextShift(k + 1, m, |rep|);
    SplicedNext(text, ps, m, rep, k + 1);
    hide Splice, Shift, InBounds;
  }

  lemma NoRounds(text: string, ps: seq<nat>, m: nat, rep: string)
    requires InBounds(ps, m, |rep|) && forall j :: 0 <= j < |ps| ==> ps[j] + m <= |text|
    ensures Shift(0, m, |rep|) == 0 && Spliced(text, ps, m, rep, 0) == text
  {
  }
}
