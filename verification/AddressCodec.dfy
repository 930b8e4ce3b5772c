/**
 IP addresses in base 64: `iptobase64` and `base64toip` of ircd/numnicks.c.
 */
module AddressCodec {
  import opened Basics
  import opened CString
  import opened Base64

  /** Eight 16-bit words in host order. */
  predicate IsAddress(w: seq<nat>) {
    |w| == 8 && forall i :: 0 <= i < 8 ==> w[i] < 0x1_0000
  }

  /** `irc_in_addr_is_ipv4`: IPv4-mapped or IPv4-compatible. */
  predicate IsIPv4(w: seq<nat>)
    requires IsAddress(w)
  {
    (forall i :: 0 <= i < 5 ==> w[i] == 0) && ((w[5] == 0 && w[6] != 0) || w[5] == 0xFFFF)
  }

  /** The IPv4-mapped form of section 2.5.5.2 of RFC 4291; an all-zero address stays that way. */
  function Mapped(v: nat): seq<nat> {
    if v == 0 then seq(8, _ => 0) else [0, 0, 0, 0, 0, 0xFFFF, v / 0x1_0000, v % 0x1_0000]
  }

  // ----- Which zeros the encoder leaves out -----

  datatype Run = Run(start: nat, zeros: nat)

  /** The search as the code does it; `curr` is not reset after a run that is no longer than the best. */
  function Search(w: seq<nat>, ii: nat, curr: nat, best: Run): (r: Run)
    requires curr <= ii <= |w| && best.start + best.zeros <= ii
    ensures r.start + r.zeros <= |w| && best.zeros <= r.zeros
    ensures best.start <= ii - curr ==> best.start <= r.start
    decreases |w| - ii
  {
    if ii == |w| then (if curr > best.zeros then Run(ii - curr, curr) else best)
    else if w[ii] == 0 then Search(w, ii + 1, curr + 1, best)
    else if curr > best.zeros then Search(w, ii + 1, 0, Run(ii - curr, curr))
    else Search(w, ii + 1, curr, best)
  }

  function LeadingNonZero(w: seq<nat>, ii: nat): (z: nat)
    requires ii <= |w|
    ensures ii <= z <= |w| && (z < |w| ==> w[z] == 0) && forall k :: ii <= k < z ==> w[k] != 0
    decreases |w| - ii
  {
    if ii < |w| && w[ii] != 0 then LeadingNonZero(w, ii + 1) else ii
  }

  function Chosen(w: seq<nat>): (r: Run)
    ensures r.start + r.zeros <= |w|
  {
    var zero := LeadingNonZero(w, 0);
    Search(w, zero, 0, Run(zero, 0))
  }

  predicate AllZero(w: seq<nat>, r: Run) {
    r.start + r.zeros <= |w| && forall i :: r.start <= i < r.start + r.zeros ==> w[i] == 0
  }

  // ----- Runs of zeros -----

  /** Lengths of the maximal runs of zero words from `ii` on, `k` zeros of the first already read. */
  function Runs(w: seq<nat>, ii: nat, k: nat): (r: seq<nat>)
    requires ii <= |w|
    ensures forall i :: 0 <= i < |r| ==> r[i] > 0
    ensures Sum(r) + |r| <= |w| - ii + k + 1
    decreases |w| - ii
  {
    if ii == |w| then (if k > 0 then [k] else [])
    else if w[ii] == 0 then Runs(w, ii + 1, k + 1)
    else if k > 0 then var rest := Runs(w, ii + 1, 0); assert ([k] + rest)[1..] == rest; [k] + rest
    else Runs(w, ii + 1, 0)
  }

  function Sum(r: seq<nat>): nat {
    if r == [] then 0 else r[0] + Sum(r[1..])
  }

  function ZeroRuns(w: seq<nat>): seq<nat> {
    Runs(w, 0, 0)
  }

  /**
   When the encoder goes wrong: the second run of zeros is no longer than the first, but the runs
   after the first are together longer than it. That takes three runs.
   */
  predicate Muddled(runs: seq<nat>) {
    |runs| >= 3 && runs[1] <= runs[0] < Sum(runs[1..])
  }

  /** The search on run lengths: is the stretch it settles on made up of several runs? */
  predicate Dirty(runs: seq<nat>, max: nat, carried: nat, dirty: bool) {
    if runs == [] then dirty
    else if carried + runs[0] > max then Dirty(runs[1..], carried + runs[0], 0, carried > 0)
    else Dirty(runs[1..], max, carried + runs[0], dirty)
  }

  lemma {:induction false} SearchOnRuns(w: seq<nat>, ii: nat, k: nat, carried: nat, best: Run)
    requires k + carried <= ii <= |w| && best.start + best.zeros <= ii && carried <= best.zeros
    requires AllZero(w, Run(ii - k, k))
    requires carried > 0 ==> w[ii-k-1] != 0
    ensures AllZero(w, Search(w, ii, k + carried, best)) <==>
            !Dirty(Runs(w, ii, k), best.zeros, carried, !AllZero(w, best))
    decreases |w| - ii
  {
    hide AllZero, Runs, Dirty, Search;
    MoreZeros(w, ii, k);
    RunsStep(w, ii, k);
    SearchStep(w, ii, k + carried, best);
    if ii < |w| && w[ii] == 0 {
      SearchOnRuns(w, ii + 1, k + 1, carried, best);
    } else if k > 0 {
      FoldStep(w, ii, k);
      DirtyStep(Runs(w, ii, k), best.zeros, carried, !AllZero(w, best));
      CandidateIsZero(w, ii, k, carried);
      if k + carried > best.zeros {
        NextRun(w, ii, 0, Run(ii - (k + carried), k + carried));
      } else {
        NextRun(w, ii, k + carried, best);
      }
    } else {
      NextRun(w, ii, carried, best);
    }
  }

  /** Behind a run, or at the end. */
  lemma {:induction false} NextRun(w: seq<nat>, ii: nat, carried: nat, best: Run)
    requires carried <= ii <= |w| && best.start + best.zeros <= ii && carried <= best.zeros
    requires ii < |w| ==> w[ii] != 0
    ensures ii < |w| ==> (AllZero(w, Search(w, ii + 1, carried, best)) <==>
            !Dirty(Runs(w, ii + 1, 0), best.zeros, carried, !AllZero(w, best)))
    ensures ii == |w| ==> Dirty([], best.zeros, carried, !AllZero(w, best)) == !AllZero(w, best)
    decreases |w| - ii, 0
  {
    hide AllZero, Runs, Search;
    if ii < |w| {
      assert AllZero(w, Run(ii + 1 - 0, 0)) by { NoZeros(w, ii + 1); }
      SearchOnRuns(w, ii + 1, 0, carried, best);
    }
  }

  lemma NoZeros(w: seq<nat>, ii: nat)
    requires ii <= |w|
    ensures AllZero(w, Run(ii, 0))
  {}

  lemma RunsStep(w: seq<nat>, ii: nat, k: nat)
    requires ii <= |w|
    ensures ii < |w| && w[ii] == 0 ==> Runs(w, ii, k) == Runs(w, ii + 1, k + 1)
    ensures ii < |w| && w[ii] != 0 && k == 0 ==> Runs(w, ii, k) == Runs(w, ii + 1, 0)
    ensures ii == |w| && k == 0 ==> Runs(w, ii, k) == []
  {}

  lemma SearchStep(w: seq<nat>, ii: nat, curr: nat, best: Run)
    requires curr <= ii <= |w| && best.start + best.zeros <= ii
    ensures Search(w, ii, curr, best) ==
            if ii == |w| then (if curr > best.zeros then Run(ii - curr, curr) else best)
            else if w[ii] == 0 then Search(w, ii + 1, curr + 1, best)
            else if curr > best.zeros then Search(w, ii + 1, 0, Run(ii - curr, curr))
            else Search(w, ii + 1, curr, best)
  {}

  lemma MoreZeros(w: seq<nat>, ii: nat, k: nat)
    requires k <= ii <= |w| && AllZero(w, Run(ii - k, k))
    ensures ii < |w| && w[ii] == 0 ==> AllZero(w, Run(ii + 1 - (k + 1), k + 1))
    ensures ii < |w| ==> AllZero(w, Run(ii + 1, 0))
  {}

  /** A candidate is all zero exactly when nothing was carried over into it. */
  lemma CandidateIsZero(w: seq<nat>, ii: nat, k: nat, carried: nat)
    requires 0 < k && k + carried <= ii <= |w|
    requires AllZero(w, Run(ii - k, k))
    requires carried > 0 ==> w[ii-k-1] != 0
    ensures AllZero(w, Run(ii - (k + carried), k + carried)) <==> carried == 0
  {}

  lemma FoldStep(w: seq<nat>, ii: nat, k: nat)
    requires ii <= |w| && k > 0 && (ii < |w| ==> w[ii] != 0)
    ensures Runs(w, ii, k) != [] && Runs(w, ii, k)[0] == k
    ensures Runs(w, ii, k)[1..] == if ii == |w| then [] else Runs(w, ii + 1, 0)
  {}

  lemma {:induction false} RunsSkip(w: seq<nat>, ii: nat)
    requires ii <= |w|
    ensures Runs(w, ii, 0) == Runs(w, LeadingNonZero(w, ii), 0)
    decreases |w| - ii
  {
    if ii < |w| && w[ii] != 0 { RunsSkip(w, ii + 1); }
  }

  /** In eight words there is room for so few runs that the condition can be read off. */
  lemma DirtyIsMuddled(r: seq<nat>)
    requires Sum(r) + |r| <= 9 && forall i :: 0 <= i < |r| ==> r[i] > 0
    ensures Dirty(r, 0, 0, false) <==> Muddled(r)
  {
    if |r| >= 3 {
      var r1, r2, r3 := r[1..], r[2..], r[3..];
      assert r1[1..] == r2 && r2[1..] == r3;
      assert Sum(r) == r[0] + Sum(r1) && Sum(r1) == r[1] + Sum(r2) && Sum(r2) == r[2] + Sum(r3);
      AtLeast(r3);
      DirtyStep(r, 0, 0, false);
      DirtyStep(r1, r[0], 0, false);
      if r[1] > r[0] {
        DirtyStep(r2, r[1], 0, false);
        DirtyTail(r3, if r[2] > r[1] then r[2] else r[1], if r[2] > r[1] then 0 else r[2], false);
      } else {
        DirtyStep(r2, r[0], r[1], false);
        if r[1] + r[2] > r[0] {
          DirtyTail(r3, r[1] + r[2], 0, true);
        } else {
          DirtyTail(r3, r[0], r[1] + r[2], false);
        }
      }
    } else if r != [] {
      DirtyStep(r, 0, 0, false);
      DirtyTail(r[1..], r[0], 0, false);
    }
  }

  lemma DirtyStep(r: seq<nat>, max: nat, carried: nat, dirty: bool)
    requires r != []
    ensures Dirty(r, max, carried, dirty) ==
            if carried + r[0] > max then Dirty(r[1..], carried + r[0], 0, carried > 0)
            else Dirty(r[1..], max, carried + r[0], dirty)
  {}

  /** After three runs there can be one more at most. */
  lemma DirtyTail(r: seq<nat>, max: nat, carried: nat, dirty: bool)
    requires |r| <= 1
    ensures Dirty(r, max, carried, dirty) ==
            if r != [] && carried + r[0] > max then carried > 0 else dirty
    ensures Sum(r) == if r == [] then 0 else r[0]
  {
    if r != [] { assert r[1..] == []; }
  }

  lemma {:induction false} AtLeast(r: seq<nat>)
    requires forall i :: 0 <= i < |r| ==> r[i] > 0
    ensures Sum(r) >= |r|
  {
    if r != [] { AtLeast(r[1..]); }
  }

  /** The words left out are all zero exactly when the runs are not muddled. */
  lemma ChosenIsZero(w: seq<nat>)
    requires |w| == 8
    ensures AllZero(w, Chosen(w)) <==> !Muddled(ZeroRuns(w))
  {
    var z := LeadingNonZero(w, 0);
    assert AllZero(w, Run(z, 0));
    RunsSkip(w, 0);
    SearchOnRuns(w, z, 0, 0, Run(z, 0));
    DirtyIsMuddled(Runs(w, 0, 0));
  }

  /** No run of zeros is longer than what is left out. */
  lemma LongestChosen(w: seq<nat>, r: Run)
    requires AllZero(w, r)
    ensures r.zeros <= Chosen(w).zeros
  {
    var z := LeadingNonZero(w, 0);
    if r.zeros > 0 {
      assert w[r.start] == 0;
      LongestFound(w, z, 0, 0, Run(z, 0), r);
    }
  }

  lemma {:induction false} LongestFound(w: seq<nat>, ii: nat, k: nat, curr: nat, best: Run, r: Run)
    requires k <= curr <= ii <= |w| && best.start + best.zeros <= ii && AllZero(w, r)
    requires ii - k <= r.start
    ensures r.zeros <= Search(w, ii, curr, best).zeros
    decreases |w| - ii
  {
    hide Search;
    SearchStep(w, ii, curr, best);
    if ii < |w| {
      if w[ii] == 0 {
        LongestFound(w, ii + 1, k + 1, curr + 1, best, r);
      } else if r.start <= ii {
        assert r.start + r.zeros <= ii;
        Grows(w, ii + 1, if curr > best.zeros then 0 else curr, if curr > best.zeros then Run(ii - curr, curr) else best);
      } else {
        LongestFound(w, ii + 1, 0, if curr > best.zeros then 0 else curr, if curr > best.zeros then Run(ii - curr, curr) else best, r);
      }
    }
  }

  lemma Grows(w: seq<nat>, ii: nat, curr: nat, best: Run)
    requires curr <= ii <= |w| && best.start + best.zeros <= ii
    ensures best.zeros <= Search(w, ii, curr, best).zeros
  {}

  // ----- The text -----

  /** Three digits a word. */
  function Group(ws: seq<nat>): (s: seq<char>)
    ensures |s| == 3 * |ws|
  {
    if ws == [] then [] else Digits(ws[0], 3) + Group(ws[1..])
  }

  lemma {:induction false} GroupConcat(a: seq<nat>, b: seq<nat>)
    ensures Group(a + b) == Group(a) + Group(b)
  {
    hide Digits;
    if a == [] {
      assert a + b == b;
    } else {
      GroupConcat(a[1..], b);
      assert (a + b)[1..] == a[1..] + b;
    }
  }

  function Around(w: seq<nat>, r: Run): seq<char>
    requires r.start + r.zeros <= |w|
  {
    if r.zeros == 0 then Group(w) else Group(w[..r.start]) + ['_'] + Group(w[r.start + r.zeros..])
  }

  /** The 6to4 prefix of RFC 3056. */
  const PREFIX_6TO4: nat := 0x2002

  /** What `iptobase64` writes. */
  function Encode(w: seq<nat>, v6ok: bool): seq<char>
    requires IsAddress(w)
  {
    if IsIPv4(w) then Digits(w[6] * 0x1_0000 + w[7], 6)
    else if v6ok then Around(w, Chosen(w))
    else if w[0] == PREFIX_6TO4 then Digits(w[1] * 0x1_0000 + w[2], 6)
    else "AAAAAA"
  }

  const DOCUMENTATION: seq<nat> := [0x2001, 0x0db8, 0, 0, 0, 0, 0, 1]
  const LOOPBACK: seq<nat> := [0, 0, 0, 0, 0, 0xFFFF, 0x7F00, 1]

  /** An IPv6 address digit by digit ... */
  lemma IPv6Example()
    ensures Encode(DOCUMENTATION, true) == "CABA24_AAB"
  {
    hide Digits, Chosen, Group;
    GapOfExample();
    GroupTwo(0x2001, 0x0db8);
    GroupOne(1);
    Base64.ThreeDigits(0x2001);
    Base64.ThreeDigits(0x0db8);
    Base64.ThreeDigits(1);
    assert DOCUMENTATION[..2] == [0x2001, 0x0db8] && DOCUMENTATION[7..] == [1];
  }

  /** ... and an IPv4 address. */
  lemma IPv4Example()
    ensures Encode(LOOPBACK, true) == "B]AAAB"
  {
    hide Digits, Chosen, Around, Convert2Y;
    assert IsIPv4(LOOPBACK) && LOOPBACK[6] * 0x1_0000 + LOOPBACK[7] == 0x7F00_0001;
    SixOfExample();
  }

  lemma SixOfExample()
    ensures Digits(0x7F00_0001, 6) == "B]AAAB"
  {
    hide Digits;
    SixDigits(0x7F00_0001);
  }

  lemma GapOfExample()
    ensures Chosen(DOCUMENTATION) == Run(2, 5)
  {
    hide Search;
    var w := DOCUMENTATION;
    assert LeadingNonZero(w, 0) == LeadingNonZero(w, 1) == LeadingNonZero(w, 2) == 2;
    SearchStep(w, 2, 0, Run(2, 0));
    SearchStep(w, 3, 1, Run(2, 0));
    SearchStep(w, 4, 2, Run(2, 0));
    SearchStep(w, 5, 3, Run(2, 0));
    SearchStep(w, 6, 4, Run(2, 0));
    SearchStep(w, 7, 5, Run(2, 0));
    SearchStep(w, 8, 0, Run(2, 5));
  }

  lemma GroupTwo(a: nat, b: nat)
    ensures Group([a, b]) == Digits(a, 3) + Digits(b, 3)
  {
    GroupConcat([a], [b]);
    GroupOne(a);
    GroupOne(b);
    assert [a] + [b] == [a, b];
  }

  /** Text on which `base64toip` stays inside it and inside the address: groups of three and gaps. */
  predicate Readable(s: seq<char>, pos: nat)
    decreases |s|
  {
    && pos < 8 && s != []
    && if s[0] == '_' then
         var left := (25 - |s|) / 3 - pos;
         left >= 0 && pos + left <= 8 && (pos + left == 8 || Readable(s[1..], pos + left))
       else
         |s| >= 3 && (pos + 1 == 8 || Readable(s[3..], pos + 1))
  }

  /** The words read from there on. */
  function Words(s: seq<char>, pos: nat): (w: seq<nat>)
    requires Readable(s, pos)
    ensures |w| == 8 - pos
    decreases |s|
  {
    if s[0] == '_' then
      var left := (25 - |s|) / 3 - pos;
      seq(left, _ => 0) + if pos + left == 8 then [] else Words(s[1..], pos + left)
    else
      [Value(s[..3]) % 0x1_0000] + if pos + 1 == 8 then [] else Words(s[3..], pos + 1)
  }

  /** What `base64toip` makes of a text. */
  function Decode(s: seq<char>): seq<nat>
    requires |s| == 6 || Readable(s, 0)
  {
    if |s| == 6 then Mapped(Value(s) % UINT_RANGE) else Words(s, 0)
  }

  lemma ReadGroup(v: nat)
    requires v < 0x1_0000
    ensures Value(Digits(v, 3)) % 0x1_0000 == v
  {
    ValueOfDigits(v, 3);
    Powers();
    Quotient(v, Power(3), 0, v);
  }

  /** Whole words to the end of the address. */
  lemma {:induction false} ReadTail(ws: seq<nat>, pos: nat)
    requires pos + |ws| == 8 && ws != [] && forall i :: 0 <= i < |ws| ==> ws[i] < 0x1_0000
    ensures Readable(Group(ws), pos) && Words(Group(ws), pos) == ws
  {
    var s := Group(ws);
    GroupHead(ws);
    ReadGroup(ws[0]);
    if |ws| > 1 { ReadTail(ws[1..], pos + 1); }
    assert ws == [ws[0]] + ws[1..];
  }

  lemma GroupHead(ws: seq<nat>)
    requires ws != []
    ensures Group(ws)[..3] == Digits(ws[0], 3) && Group(ws)[3..] == Group(ws[1..]) && Group(ws)[0] != '_'
  {}

  /** Words, a gap, and words to the end. */
  lemma {:induction false} ReadAround(a: seq<nat>, b: seq<nat>, pos: nat, zeros: nat)
    requires pos + |a| + zeros + |b| == 8 && zeros > 0
    requires forall i :: 0 <= i < |a| ==> a[i] < 0x1_0000
    requires forall i :: 0 <= i < |b| ==> b[i] < 0x1_0000
    ensures var s := Group(a) + ['_'] + Group(b);
            Readable(s, pos) && Words(s, pos) == a + seq(zeros, _ => 0) + b
    decreases |a|
  {
    hide Digits, Value, Group, Words, Readable;
    var s := Group(a) + ['_'] + Group(b);
    if a == [] {
      assert Group(a) == [];
      assert s == ['_'] + Group(b) && s[1..] == Group(b);
      if b != [] { ReadTail(b, 8 - |b|); }
      GapStep(s, pos, zeros);
      assert a + seq(zeros, _ => 0) + b == seq(zeros, _ => 0) + b;
    } else {
      GroupHead(a);
      ReadGroup(a[0]);
      var t := Group(a[1..]) + ['_'] + Group(b);
      assert s[3..] == t && s[..3] == Digits(a[0], 3) && s[0] == Group(a)[0];
      ReadAround(a[1..], b, pos + 1, zeros);
      WordStep(s, pos);
      assert a + seq(zeros, _ => 0) + b == [a[0]] + (a[1..] + seq(zeros, _ => 0) + b);
    }
  }

  lemma WordStep(s: seq<char>, pos: nat)
    requires pos < 7 && |s| >= 3 && s[0] != '_' && Readable(s[3..], pos + 1)
    ensures Readable(s, pos) && Words(s, pos) == [Value(s[..3]) % 0x1_0000] + Words(s[3..], pos + 1)
  {}

  /** The gap is as long as the words that follow leave it. */
  lemma GapStep(s: seq<char>, pos: nat, zeros: nat)
    requires s != [] && s[0] == '_' && zeros > 0 && |s| == 3 * (8 - pos - zeros) + 1 && pos + zeros <= 8
    requires pos + zeros < 8 ==> Readable(s[1..], pos + zeros)
    ensures Readable(s, pos)
    ensures Words(s, pos) == seq(zeros, _ => 0) + if pos + zeros == 8 then [] else Words(s[1..], pos + zeros)
  {}

  lemma ReadSix(v: nat)
    requires v < UINT_RANGE
    ensures Value(Digits(v, 6)) % UINT_RANGE == v
  {
    ValueOfDigits(v, 6);
    Powers();
    Quotient(v, Power(6), 0, v);
  }

  lemma Halves(hi: nat, lo: nat)
    requires hi < 0x1_0000 && lo < 0x1_0000
    ensures hi * 0x1_0000 + lo < UINT_RANGE
    ensures (hi * 0x1_0000 + lo) / 0x1_0000 == hi && (hi * 0x1_0000 + lo) % 0x1_0000 == lo
  {}

  /** An IPv4 address comes back in the mapped form, and only ::ffff:0:0 as the zero address. */
  lemma IPv4RoundTrip(w: seq<nat>, v6ok: bool)
    requires IsAddress(w) && IsIPv4(w)
    ensures |Encode(w, v6ok)| == 6
    ensures Decode(Encode(w, v6ok)) ==
            if w[6] == 0 && w[7] == 0 then seq(8, _ => 0) else w[5 := 0xFFFF]
  {
    var v := w[6] * 0x1_0000 + w[7];
    Halves(w[6], w[7]);
    ReadSix(v);
  }

  /** An IPv6 address comes back exactly when its runs of zeros are not muddled. */
  lemma IPv6RoundTrip(w: seq<nat>)
    requires IsAddress(w) && !IsIPv4(w)
    ensures Readable(Encode(w, true), 0) && |Encode(w, true)| != 6
    ensures Decode(Encode(w, true)) == w <==> !Muddled(ZeroRuns(w))
  {
    hide Words, Readable, Group, Muddled, ZeroRuns, Chosen;
    var r := Chosen(w);
    ChosenIsZero(w);
    if r.zeros == 0 {
      ReadTail(w, 0);
    } else {
      ReadAround(w[..r.start], w[r.start + r.zeros..], 0, r.zeros);
      Patched(w, r);
    }
  }

  /** Putting zeros where the gap is changes nothing exactly when there were zeros. */
  lemma Patched(w: seq<nat>, r: Run)
    requires r.start + r.zeros <= |w|
    ensures w[..r.start] + seq(r.zeros, _ => 0) + w[r.start + r.zeros..] == w <==> AllZero(w, r)
  {
    var p := w[..r.start] + seq(r.zeros, _ => 0) + w[r.start + r.zeros..];
    forall i | r.start <= i < r.start + r.zeros ensures p[i] == 0 {}
  }

  /** At most two runs of zeros are always safe. */
  lemma TwoRunsSurvive(w: seq<nat>)
    requires IsAddress(w) && !IsIPv4(w) && |ZeroRuns(w)| <= 2
    ensures Readable(Encode(w, true), 0) && Decode(Encode(w, true)) == w
  {
    IPv6RoundTrip(w);
  }

  /** Three runs of one zero word each are not: 1:0:1:0:1:0:1:1 does not come back. */
  lemma ThreeRunsMayNot()
    ensures var w := [1, 0, 1, 0, 1, 0, 1, 1];
            IsAddress(w) && !IsIPv4(w) && Readable(Encode(w, true), 0) && Decode(Encode(w, true)) != w
  {
    var w: seq<nat> := [1, 0, 1, 0, 1, 0, 1, 1];
    assert Runs(w, 7, 0) == [];
    assert Runs(w, 5, 0) == Runs(w, 6, 1) == [1];
    assert Runs(w, 3, 0) == Runs(w, 4, 1) == [1] + Runs(w, 5, 0) == [1, 1];
    assert Runs(w, 1, 0) == Runs(w, 2, 1) == [1] + Runs(w, 3, 0) == [1, 1, 1];
    assert ZeroRuns(w) == [1, 1, 1];
    assert [1, 1, 1][1..] == [1, 1] && [1, 1][1..] == [1];
    IPv6RoundTrip(w);
  }

  /** A peer that does not know IPv6 is told the address inside a 6to4 prefix, and zero otherwise. */
  lemma WithoutIPv6(w: seq<nat>)
    requires IsAddress(w) && !IsIPv4(w)
    ensures |Encode(w, false)| == 6
    ensures Decode(Encode(w, false)) == Mapped(if w[0] == PREFIX_6TO4 then w[1] * 0x1_0000 + w[2] else 0)
  {
    Halves(w[1], w[2]);
    ReadSix(w[1] * 0x1_0000 + w[2]);
    ReadSix(0);
    ZeroDigits(6);
    assert seq(6, _ => 'A') == "AAAAAA";
  }

  lemma {:induction false} ZeroDigits(n: nat)
    ensures Digits(0, n) == seq(n, _ => 'A')
  {
    if n > 0 { ZeroDigits(n - 1); }
  }

  // ----- The routines -----

  /** Written so far: the groups up to `ii`, with the gap once it has been passed. */
  ghost predicate Written(s: seq<char>, w: seq<nat>, r: Run, ii: nat)
    requires r.start + r.zeros <= |w| && ii <= |w|
  {
    if r.zeros == 0 || ii <= r.start then s == Group(w[..ii])
    else r.start + r.zeros <= ii && s == Group(w[..r.start]) + ['_'] + Group(w[r.start + r.zeros..ii])
  }

  lemma WrittenWord(s: seq<char>, w: seq<nat>, r: Run, ii: nat)
    requires r.start + r.zeros <= |w| && ii < |w| && Written(s, w, r, ii) && (ii != r.start || r.zeros == 0)
    ensures Written(s + Digits(w[ii], 3), w, r, ii + 1)
  {
    hide Digits, Group;
    GroupConcat(w[..ii], [w[ii]]);
    assert w[..ii+1] == w[..ii] + [w[ii]];
    GroupOne(w[ii]);
    if r.zeros > 0 && ii >= r.start + r.zeros {
      GroupConcat(w[r.start + r.zeros..ii], [w[ii]]);
      assert w[r.start + r.zeros..ii+1] == w[r.start + r.zeros..ii] + [w[ii]];
    }
  }

  lemma GroupOne(v: nat)
    ensures Group([v]) == Digits(v, 3)
  {
    assert [v][1..] == [];
  }

  lemma WrittenGap(s: seq<char>, w: seq<nat>, r: Run)
    requires r.start + r.zeros <= |w| && r.zeros > 0 && Written(s, w, r, r.start)
    ensures Written(s + ['_'], w, r, r.start + r.zeros)
  {
    assert w[r.start + r.zeros..r.start + r.zeros] == [];
  }

  lemma WrittenAll(s: seq<char>, w: seq<nat>, r: Run)
    requires r.start + r.zeros <= |w| && Written(s, w, r, |w|) && (r.zeros == 0 || r.start < |w|)
    ensures s == Around(w, r)
  {
    assert w[..|w|] == w;
    assert w[r.start + r.zeros..|w|] == w[r.start + r.zeros..];
  }

  /** `iptobase64` into a buffer that is long enough for any address. */
  method IpToBase64(buf: array<char>, addr: seq<nat>, v6ok: bool) returns (n: nat)
    requires IsAddress(addr) && buf.Length >= 25
    modifies buf
    ensures n < buf.Length && buf[..n] == Encode(addr, v6ok) && buf[n] == NUL
  {
    hide Digits, Search, Group, Around, LeadingNonZero;
    if IsIPv4(addr) {
      IntToBase64(buf, 0, addr[6] * 0x1_0000 + addr[7], 6);
      n := 6;
    } else if !v6ok {
      if addr[0] == PREFIX_6TO4 {
        IntToBase64(buf, 0, addr[1] * 0x1_0000 + addr[2], 6);
      } else {
        var k := 0;
        while k < 6
          invariant 0 <= k <= 6 && buf[..k] == "AAAAAA"[..k]
        {
          buf[k] := 'A';
          k := k + 1;
        }
        buf[6] := NUL;
      }
      n := 6;
    } else {
      n := IPv6ToBase64(buf, addr);
    }
    assert buf[0..n] == buf[..n];
  }

  /** The leading words without a zero are printed while the first zero is looked for. */
  method PrintLeading(buf: array<char>, addr: seq<nat>) returns (output: nat, ii: nat)
    requires IsAddress(addr) && buf.Length >= 25
    modifies buf
    ensures ii == LeadingNonZero(addr, 0) && output == 3 * ii && buf[..output] == Group(addr[..ii])
  {
    hide Digits, Group;
    ii, output := 0, 0;
    assert addr[..0] == [];
    while ii < 8 && addr[ii] != 0
      invariant ii <= 8 && output == 3 * ii && buf[..output] == Group(addr[..ii])
      invariant LeadingNonZero(addr, 0) == LeadingNonZero(addr, ii)
    {
      ghost var before := buf[..output];
      IntToBase64(buf, output, addr[ii], 3);
      GroupConcat(addr[..ii], [addr[ii]]);
      GroupOne(addr[ii]);
      assert addr[..ii+1] == addr[..ii] + [addr[ii]];
      assert buf[..output+3] == before + buf[output..output+3];
      output := output + 3;
      ii := ii + 1;
    }
  }

  /** The search for the run to leave out. */
  method FindRun(addr: seq<nat>, zero: nat) returns (r: Run)
    requires IsAddress(addr) && zero == LeadingNonZero(addr, 0)
    ensures r == Chosen(addr) && zero <= r.start
  {
    var ii, maxStart, maxZeros, currZeros := zero, zero, 0, 0;
    while ii < 8
      invariant zero <= ii <= 8 && currZeros <= ii - zero && zero <= maxStart && maxStart + maxZeros <= ii
      invariant Search(addr, ii, currZeros, Run(maxStart, maxZeros)) == Chosen(addr)
    {
      if addr[ii] == 0 {
        currZeros := currZeros + 1;
      } else if currZeros > maxZeros {
        maxStart := ii - currZeros;
        maxZeros := currZeros;
        currZeros := 0;
      }
      ii := ii + 1;
    }
    if currZeros > maxZeros {
      maxStart := ii - currZeros;
      maxZeros := currZeros;
    }
    r := Run(maxStart, maxZeros);
  }

  /** The IPv6 case: print up to the first zero, find the run, print the rest around it. */
  method IPv6ToBase64(buf: array<char>, addr: seq<nat>) returns (n: nat)
    requires IsAddress(addr) && buf.Length >= 25
    modifies buf
    ensures n < buf.Length && buf[..n] == Around(addr, Chosen(addr)) && buf[n] == NUL
  {
    hide Digits, Search, Group, Around, LeadingNonZero, Chosen, Written;
    var output, zero := PrintLeading(buf, addr);
    var r := FindRun(addr, zero);
    var ii := zero;
    assert Written(buf[..output], addr, r, ii) by { WrittenStart(addr, r, ii); }
    while ii < 8
      invariant ii <= 8 && output <= 3 * ii && Written(buf[..output], addr, r, ii)
      decreases 8 - ii
    {
      ghost var before := buf[..output];
      if ii == r.start && r.zeros > 0 {
        WrittenGap(before, addr, r);
        buf[output] := '_';
        output := output + 1;
        assert buf[..output] == before + ['_'];
        ii := ii + r.zeros;
      } else {
        WrittenWord(before, addr, r, ii);
        IntToBase64(buf, output, addr[ii], 3);
        assert buf[..output+3] == before + buf[output..output+3];
        output := output + 3;
        ii := ii + 1;
      }
    }
    WrittenAll(buf[..output], addr, r);
    buf[output] := NUL;
    n := output;
  }

  lemma WrittenStart(w: seq<nat>, r: Run, ii: nat)
    requires r.start + r.zeros <= |w| && ii <= r.start
    ensures Written(Group(w[..ii]), w, r, ii)
  {}

  /** `base64toip` on a text it can read. */
  method Base64ToIp(input: seq<char>, addr: array<nat>)
    requires addr.Length == 8 && IsCString(input) && (|input| == 6 || Readable(input, 0))
    modifies addr
    ensures addr[..] == Decode(input)
  {
    hide Value, Words, Readable;
    var k := 0;
    while k < 8
      invariant 0 <= k <= 8 && forall i :: 0 <= i < k ==> addr[i] == 0
    {
      addr[k] := 0;
      k := k + 1;
    }
    if |input| == 6 {
      var v := Base64ToInt(input);
      if v != 0 {
        addr[5] := 0xFFFF;
        addr[6] := v / 0x1_0000;
        addr[7] := v % 0x1_0000;
      }
      assert addr[..] == Mapped(v);
    } else {
      ReadWords(input, addr);
    }
  }

  /** One group or gap: what is read, and what is left to read. */
  lemma ReadStep(s: seq<char>, pos: nat)
    requires Readable(s, pos)
    ensures pos < 8 && s != []
    ensures s[0] == '_' ==> var left := (25 - |s|) / 3 - pos;
              && left >= 0 && pos + left <= 8 && (pos + left < 8 ==> Readable(s[1..], pos + left))
              && Words(s, pos) == seq(left, _ => 0) + if pos + left < 8 then Words(s[1..], pos + left) else []
    ensures s[0] != '_' ==>
              && |s| >= 3 && (pos + 1 < 8 ==> Readable(s[3..], pos + 1))
              && Words(s, pos) == [Value(s[..3]) % 0x1_0000] + if pos + 1 < 8 then Words(s[3..], pos + 1) else []
  {}

  /** One turn of the decoder: a gap or a group of three; `at` is where the input pointer stands. */
  method ReadOne(input: seq<char>, at0: nat, addr: array<nat>, pos0: nat) returns (at: nat, pos: nat)
    requires addr.Length == 8 && at0 <= |input| && pos0 < 8 && Readable(input[at0..], pos0)
    modifies addr
    ensures at0 < at <= |input| && pos0 <= pos <= 8 && (pos < 8 ==> Readable(input[at..], pos))
    ensures old(addr[..pos0]) + Words(input[at0..], pos0) == addr[..pos] + if pos < 8 then Words(input[at..], pos) else []
  {
    hide Value, Words, Readable;
    ghost var rest, done := input[at0..], addr[..pos0];
    ReadStep(rest, pos0);
    if input[at0] == '_' {
      assert rest[1..] == input[at0+1..];
      pos := ClearWords(addr, pos0, (25 - (|input| - at0)) / 3 - pos0);
      at := at0 + 1;
    } else {
      ThreeDigits(rest);
      assert rest[3..] == input[at0+3..];
      var accum := Convert2N(input[at0]);
      accum := accum * NUMNICKBASE + Convert2N(input[at0+1]);
      accum := (accum * NUMNICKBASE + Convert2N(input[at0+2])) % 0x1_0000;
      addr[pos0] := accum;
      at := at0 + 3;
      pos := pos0 + 1;
      assert addr[..pos] == done + [Value(rest[..3]) % 0x1_0000];
    }
  }

  /** The loop over groups and gaps. */
  method ReadWords(input: seq<char>, addr: array<nat>)
    requires addr.Length == 8 && IsCString(input) && Readable(input, 0)
    modifies addr
    ensures addr[..] == Words(input, 0)
  {
    hide Value, Words, Readable;
    var at: nat, pos: nat := 0, 0;
    assert input[0..] == input;
    ReadStep(input, 0);
    while pos < 8
      invariant at <= |input| && pos <= 8 && (pos < 8 ==> Readable(input[at..], pos))
      invariant Words(input, 0) == addr[..pos] + if pos < 8 then Words(input[at..], pos) else []
      decreases |input| - at
    {
      at, pos := ReadOne(input, at, addr, pos);
    }
    assert addr[..8] == addr[..];
  }

  /** A gap: that many words are zero. */
  method ClearWords(addr: array<nat>, pos0: nat, left0: nat) returns (pos: nat)
    requires pos0 + left0 <= addr.Length
    modifies addr
    ensures pos == pos0 + left0 && addr[..pos] == old(addr[..pos0]) + seq(left0, _ => 0)
  {
    var left := left0;
    pos := pos0;
    while left > 0
      invariant pos + left == pos0 + left0 && addr[..pos] == old(addr[..pos0]) + seq(pos - pos0, _ => 0) && pos0 <= pos
    {
      addr[pos] := 0;
      pos := pos + 1;
      left := left - 1;
    }
  }

  lemma ThreeDigits(s: seq<char>)
    requires |s| >= 3
    ensures Value(s[..3]) == (Convert2N(s[0]) * NUMNICKBASE + Convert2N(s[1])) * NUMNICKBASE + Convert2N(s[2])
  {
    hide Convert2N;
    var a, b, c := s[..1], s[..2], s[..3];
    assert a[..0] == [] && b[..1] == a && c[..2] == b;
    assert Value(a) == Convert2N(s[0]);
    assert Value(b) == Value(a) * NUMNICKBASE + Convert2N(s[1]);
    assert Value(c) == Value(b) * NUMNICKBASE + Convert2N(s[2]);
  }
}
