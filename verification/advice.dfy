/** The per-row threshold classifiers of the dashboard (dashboard/app.py):
    maintenance advice (get_recommendations), the recycling category
    (recycling_category) and the workload profile (workload_recommendation). */
module Advice {
  import opened Table

  // ---------------------------------------------------------------------------
  // Maintenance recommendations (lines 323-328)
  // ---------------------------------------------------------------------------

  /** The three maintenance rules, in the order the dashboard checks them. */
  datatype Rule = Thermal | Power | Overclock

  /** The message each rule appends. */
  function Message(r: Rule): string {
    match r
    case Thermal => "Clean fans, reapply thermal paste"
    case Power => "Lower power limit or increase cooling"
    case Overclock => "Reduce overclock or enforce power cap"
  }

  /** Position of a rule in the checking order. */
  function Rank(r: Rule): nat {
    match r
    case Thermal => 0
    case Power => 1
    case Overclock => 2
  }

  /** The row's fields the rules compare with a threshold are numbers or absent
      (absent counts as 0). */
  predicate Readable(row: Row) {
    && NumericOrAbsent(row, "thermal_score")
    && NumericOrAbsent(row, "avg_power_watts")
    && NumericOrAbsent(row, "avg_sm_pct")
  }

  /** `row.get("overclock_proxy", 0) == 1`: equality, so a text cell is simply not 1. */
  predicate Overclocked(row: Row) {
    "overclock_proxy" in row && row["overclock_proxy"] == Num(1.0)
  }

  /** When each rule fires, as a reference definition independent of the
      order in which the messages are collected. */
  predicate Fires(row: Row, r: Rule)
    requires Readable(row)
  {
    match r
    case Thermal => Metric(row, "thermal_score") > 18.0
    case Power => Metric(row, "avg_power_watts") > 180.0
    case Overclock => Metric(row, "avg_sm_pct") > 70.0 && Overclocked(row)
  }

  /** Strictly increasing in checking order, so each rule at most once. */
  predicate InOrder(rs: seq<Rule>) {
    forall i, j | 0 <= i < j < |rs| :: Rank(rs[i]) < Rank(rs[j])
  }

  /** The `recs` list of get_recommendations, built by appending. */
  function FiredRules(row: Row): (recs: seq<Rule>)
    requires Readable(row)
    ensures forall r :: r in recs <==> Fires(row, r)
    ensures InOrder(recs)
  {
    var recs0: seq<Rule> := [];
    var recs1 := if Metric(row, "thermal_score") > 18.0 then recs0 + [Thermal] else recs0;
    var recs2 := if Metric(row, "avg_power_watts") > 180.0 then recs1 + [Power] else recs1;
    if Metric(row, "avg_sm_pct") > 70.0 && Overclocked(row) then recs2 + [Overclock] else recs2
  }

  /** The total length of some strings. */
  function TotalLength(parts: seq<string>): nat {
    if parts == [] then 0 else |parts[0]| + TotalLength(parts[1..])
  }

  /** Where part `k` starts in `sep.join(parts)`: after the `k` parts before it
      and one separator behind each of them. */
  function Offset(parts: seq<string>, sep: string, k: nat): nat
    requires k <= |parts|
  {
    TotalLength(parts[..k]) + k * |sep|
  }

  /** The offsets of the parts after the first, counted in the rest. */
  lemma OffsetCons(parts: seq<string>, sep: string, k: nat)
    requires 1 <= k <= |parts|
    ensures Offset(parts, sep, k) == |parts[0]| + |sep| + Offset(parts[1..], sep, k - 1)
  {
    assert parts[..k][1..] == parts[1..][..k - 1];
    assert k * |sep| == (k - 1) * |sep| + |sep|;
  }

  /** Part `k` of `parts` stands at its offset in `s`. */
  ghost predicate PartAt(s: string, parts: seq<string>, sep: string, k: nat)
    requires k < |parts|
  {
    Offset(parts, sep, k) + |parts[k]| <= |s|
    && s[Offset(parts, sep, k)..Offset(parts, sep, k) + |parts[k]|] == parts[k]
  }

  /** A separator follows part `k` of `parts` in `s`. */
  ghost predicate SepAfter(s: string, parts: seq<string>, sep: string, k: nat)
    requires k < |parts|
  {
    Offset(parts, sep, k) + |parts[k]| + |sep| <= |s|
    && s[Offset(parts, sep, k) + |parts[k]|..Offset(parts, sep, k) + |parts[k]| + |sep|] == sep
  }

  /** Python's `sep.join(parts)`: part `k` stands at `Offset(parts, sep, k)`,
      a separator follows every part but the last, and nothing else is there. */
  function Join(parts: seq<string>, sep: string): (s: string)
    ensures |parts| >= 1 ==> |s| == TotalLength(parts) + (|parts| - 1) * |sep|
    ensures forall k | 0 <= k < |parts| :: PartAt(s, parts, sep, k)
    ensures forall k | 0 <= k < |parts| - 1 :: SepAfter(s, parts, sep, k)
    decreases |parts|
  {
    if |parts| == 0 then ""
    else if |parts| == 1 then
      assert Offset(parts, sep, 0) == 0 by { assert parts[..0] == []; }
      parts[0]
    else
      var rest := Join(parts[1..], sep);
      var s := parts[0] + sep + rest;
      JoinLayoutCons(parts, sep, rest, s);
      s
  }

  lemma PartAtCons(parts: seq<string>, sep: string, rest: string, s: string, k: nat)
    requires 1 <= k < |parts| && s == parts[0] + sep + rest
    requires PartAt(rest, parts[1..], sep, k - 1)
    ensures PartAt(s, parts, sep, k)
  {
    OffsetCons(parts, sep, k);
    var head := |parts[0]| + |sep|;
    var o := Offset(parts[1..], sep, k - 1);
    assert parts[1..][k - 1] == parts[k];
    assert s[head + o..head + o + |parts[k]|] == rest[o..o + |parts[k]|];
  }

  lemma SepAfterCons(parts: seq<string>, sep: string, rest: string, s: string, k: nat)
    requires 1 <= k < |parts| && s == parts[0] + sep + rest
    requires SepAfter(rest, parts[1..], sep, k - 1)
    ensures SepAfter(s, parts, sep, k)
  {
    OffsetCons(parts, sep, k);
    var head := |parts[0]| + |sep|;
    var o := Offset(parts[1..], sep, k - 1) + |parts[k]|;
    assert parts[1..][k - 1] == parts[k];
    assert s[head + o..head + o + |sep|] == rest[o..o + |sep|];
  }

  /** The layout of `sep.join(parts)` from that of the join of the rest. */
  lemma JoinLayoutCons(parts: seq<string>, sep: string, rest: string, s: string)
    requires |parts| >= 2 && s == parts[0] + sep + rest
    requires |rest| == TotalLength(parts[1..]) + (|parts| - 2) * |sep|
    requires forall k | 0 <= k < |parts| - 1 :: PartAt(rest, parts[1..], sep, k)
    requires forall k | 0 <= k < |parts| - 2 :: SepAfter(rest, parts[1..], sep, k)
    ensures |s| == TotalLength(parts) + (|parts| - 1) * |sep|
    ensures forall k | 0 <= k < |parts| :: PartAt(s, parts, sep, k)
    ensures forall k | 0 <= k < |parts| - 1 :: SepAfter(s, parts, sep, k)
  {
    assert (|parts| - 1) * |sep| == (|parts| - 2) * |sep| + |sep|;
    assert Offset(parts, sep, 0) == 0 by { assert parts[..0] == []; }
    assert PartAt(s, parts, sep, 0);
    assert SepAfter(s, parts, sep, 0);
    forall k | 1 <= k < |parts|
      ensures PartAt(s, parts, sep, k)
    {
      PartAtCons(parts, sep, rest, s, k);
    }
    forall k | 1 <= k < |parts| - 1
      ensures SepAfter(s, parts, sep, k)
    {
      SepAfterCons(parts, sep, rest, s, k);
    }
  }

  /** The messages of a list of rules under the message table `msg`, in the
      same order. */
  function MessagesOf(msg: Rule -> string, rs: seq<Rule>): (ms: seq<string>)
    ensures |ms| == |rs|
    ensures forall i | 0 <= i < |rs| :: ms[i] == msg(rs[i])
  {
    seq(|rs|, i requires 0 <= i < |rs| => msg(rs[i]))
  }

  /** `", ".join(recs) if recs else "None"`. */
  function Render(recs: seq<Rule>): (s: string)
    ensures s == "None" <==> recs == []
  {
    if recs == [] then "None"
    else
      var ms := MessagesOf(Message, recs);
      assert Offset(ms, ", ", 0) == 0 by { assert ms[..0] == []; }
      assert PartAt(Join(ms, ", "), ms, ", ", 0);
      Join(ms, ", ")
  }

  datatype Option<T> = None | Some(value: T)

  function RuleOf(c: char): Rule {
    if c == 'C' then Thermal else if c == 'L' then Power else Overclock
  }

  /** A message table the decoder can read: every message is non-empty and
      its first letter names its rule. */
  ghost predicate Legible(msg: Rule -> string) {
    forall r :: |msg(r)| > 0 && RuleOf(msg(r)[0]) == r
  }

  /** The dashboard's messages are legible. */
  lemma MessagesLegible()
    ensures Legible(Message)
  {
    forall r ensures |Message(r)| > 0 && RuleOf(Message(r)[0]) == r {
      match r
      case Thermal =>
      case Power =>
      case Overclock =>
    }
  }

  /** `s` with the prefix `p` taken off, when `s` starts with `p`. */
  function StripPrefix(s: string, p: string): (rest: Option<string>)
    ensures rest.Some? <==> |p| <= |s| && s[..|p|] == p
    ensures rest.Some? ==> s == p + rest.value
  {
    if |p| <= |s| && s[..|p|] == p then Some(s[|p|..]) else None
  }

  /** Reads a text of messages from `msg` joined by ", " back into their
      rules.  Each message is recognised by its first letter and must then be
      spelled out in full, and consecutive messages must be separated by
      ", "; any other text is rejected. */
  function DecodeJoined(msg: Rule -> string, s: string): (rs: Option<seq<Rule>>)
    decreases |s|
  {
    if |s| == 0 then None
    else
      var r := RuleOf(s[0]);
      match StripPrefix(s, msg(r))
      case None => None
      case Some(after) =>
        if after == [] then Some([r])
        else
          match StripPrefix(after, ", ")
          case None => None
          case Some(tail) =>
            match DecodeJoined(msg, tail)
            case None => None
            case Some(rest) => Some([r] + rest)
  }

  /** Reads an advice text back into the rules it lists, or rejects it. */
  function Decode(s: string): (rs: Option<seq<Rule>>)
  {
    if s == "None" then Some([]) else DecodeJoined(Message, s)
  }

  /** Joining the messages of a rule followed by more rules. */
  lemma JoinMessagesCons(msg: Rule -> string, r: Rule, rest: seq<Rule>)
    requires rest != []
    ensures Join(MessagesOf(msg, [r] + rest), ", ") == msg(r) + ", " + Join(MessagesOf(msg, rest), ", ")
  {
    var ms := MessagesOf(msg, [r] + rest);
    assert ms[0] == msg(r) && ms[1..] == MessagesOf(msg, rest);
  }

  /** The messages of a single rule, joined, are its message. */
  lemma JoinMessagesSingle(msg: Rule -> string, r: Rule)
    ensures Join(MessagesOf(msg, [r]), ", ") == msg(r)
  {
    assert MessagesOf(msg, [r]) == [msg(r)];
  }

  /** `", " + tail` loses its separator again. */
  lemma StripSeparator(tail: string)
    ensures StripPrefix(", " + tail, ", ") == Some(tail)
  {
    assert (", " + tail)[..2] == ", ";
    assert (", " + tail)[2..] == tail;
  }

  /** A text that starts with a rule's message followed by `more` is read as
      that rule. */
  lemma DecodeJoinedHead(msg: Rule -> string, r: Rule, more: string)
    requires Legible(msg)
    ensures DecodeJoined(msg, msg(r) + more) ==
      if more == [] then Some([r])
      else match StripPrefix(more, ", ")
        case None => None
        case Some(tail) =>
          match DecodeJoined(msg, tail)
          case None => None
          case Some(rest) => Some([r] + rest)
  {
    var s := msg(r) + more;
    assert s[0] == msg(r)[0];
    assert s[..|msg(r)|] == msg(r);
    assert s[|msg(r)|..] == more;
  }

  lemma {:induction false} DecodeJoinedRoundTrip(msg: Rule -> string, rs: seq<Rule>)
    requires Legible(msg) && rs != []
    ensures DecodeJoined(msg, Join(MessagesOf(msg, rs), ", ")) == Some(rs)
  {
    var r := rs[0];
    if |rs| == 1 {
      assert rs == [r];
      JoinMessagesSingle(msg, r);
      DecodeJoinedHead(msg, r, []);
      assert msg(r) + [] == msg(r);
    } else {
      var rest := rs[1..];
      assert rs == [r] + rest;
      var tail := Join(MessagesOf(msg, rest), ", ");
      var more := ", " + tail;
      JoinMessagesCons(msg, r, rest);
      assert Join(MessagesOf(msg, rs), ", ") == msg(r) + more;
      DecodeJoinedRoundTrip(msg, rest);
      StripSeparator(tail);
      DecodeJoinedHead(msg, r, more);
    }
  }

  /** What a successful decoding step has read. */
  lemma DecodeJoinedUnfold(msg: Rule -> string, s: string)
    requires DecodeJoined(msg, s).Some?
    ensures |s| > 0 && StripPrefix(s, msg(RuleOf(s[0]))).Some?
    ensures StripPrefix(s, msg(RuleOf(s[0]))).value == [] ==>
      DecodeJoined(msg, s).value == [RuleOf(s[0])]
    ensures StripPrefix(s, msg(RuleOf(s[0]))).value != [] ==>
      var after := StripPrefix(s, msg(RuleOf(s[0]))).value;
      StripPrefix(after, ", ").Some? && DecodeJoined(msg, StripPrefix(after, ", ").value).Some?
      && DecodeJoined(msg, s).value == [RuleOf(s[0])] + DecodeJoined(msg, StripPrefix(after, ", ").value).value
  {
  }

  /** The decoder accepts only texts that are the messages of the rules it
      returns, joined by ", ". */
  lemma {:induction false} DecodeJoinedSound(msg: Rule -> string, s: string)
    requires DecodeJoined(msg, s).Some?
    ensures DecodeJoined(msg, s).value != []
    ensures s == Join(MessagesOf(msg, DecodeJoined(msg, s).value), ", ")
    decreases |s|
  {
    DecodeJoinedUnfold(msg, s);
    var r := RuleOf(s[0]);
    var m := msg(r);
    var after := StripPrefix(s, m).value;
    if after == [] {
      assert s == m + [];
      JoinMessagesSingle(msg, r);
    } else {
      var tail := StripPrefix(after, ", ").value;
      DecodeJoinedSound(msg, tail);
      var rest := DecodeJoined(msg, tail).value;
      JoinMessagesCons(msg, r, rest);
      assert s == m + (", " + tail);
    }
  }

  /** The rendered text loses nothing: it decodes back to the same rules. */
  lemma RenderRoundTrip(rs: seq<Rule>)
    ensures Decode(Render(rs)) == Some(rs)
  {
    if rs != [] {
      MessagesLegible();
      DecodeJoinedRoundTrip(Message, rs);
    }
  }

  /** Only rendered texts decode: a text that decodes to `rs` is exactly
      the rendering of `rs`, the messages of `rs` joined by ", ", or "None". */
  lemma DecodeSound(s: string)
    requires Decode(s).Some?
    ensures s == Render(Decode(s).value)
  {
    if s != "None" {
      DecodeJoinedSound(Message, s);
    }
  }

  /** get_recommendations (lines 323-328): the text is exactly the messages of
      the rules collected for the row, joined by ", ", or "None" when there
      are none; the checking decoder accepts it with those rules. */
  function GetRecommendations(row: Row): (s: string)
    requires Readable(row)
    ensures Decode(s) == Some(FiredRules(row))
  {
    RenderRoundTrip(FiredRules(row));
    Render(FiredRules(row))
  }

  /** The advice text spelled out: with rules firing, the message of the k-th
      of them stands at its offset, followed by ", " unless it is the last;
      with none, the text is "None". */
  lemma RecommendationsLayout(row: Row)
    requires Readable(row)
    ensures var ms := MessagesOf(Message, FiredRules(row));
      && (FiredRules(row) == [] ==> GetRecommendations(row) == "None")
      && (forall k | 0 <= k < |ms| :: PartAt(GetRecommendations(row), ms, ", ", k))
      && (forall k | 0 <= k < |ms| - 1 :: SepAfter(GetRecommendations(row), ms, ", ", k))
      && (ms != [] ==> |GetRecommendations(row)| == TotalLength(ms) + (|ms| - 1) * 2)
  {
  }

  /** get_recommendations returns "None" exactly when no rule fires, and
      otherwise names exactly the rules that fire, in checking order. */
  lemma RecommendationsFaithful(row: Row)
    requires Readable(row)
    ensures GetRecommendations(row) == "None" <==> forall r :: !Fires(row, r)
    ensures Decode(GetRecommendations(row)).Some?
    ensures forall r :: r in Decode(GetRecommendations(row)).value <==> Fires(row, r)
    ensures InOrder(Decode(GetRecommendations(row)).value)
  {
    var recs := FiredRules(row);
    if recs != [] {
      assert Fires(row, recs[0]);
    }
  }

  /** Two rows receive the same advice text exactly when the same rules fire. */
  lemma RecommendationsDetermineRules(a: Row, b: Row)
    requires Readable(a) && Readable(b)
    ensures GetRecommendations(a) == GetRecommendations(b) <==> forall r :: Fires(a, r) <==> Fires(b, r)
  {
    RecommendationsFaithful(a);
    RecommendationsFaithful(b);
    var ra, rb := FiredRules(a), FiredRules(b);
    if forall r :: Fires(a, r) <==> Fires(b, r) {
      InOrderUnique(ra, rb);
    }
  }

  /** Two in-order rule lists with the same members are equal. */
  lemma {:induction false} InOrderUnique(xs: seq<Rule>, ys: seq<Rule>)
    requires InOrder(xs) && InOrder(ys)
    requires forall r :: r in xs <==> r in ys
    ensures xs == ys
  {
    if xs != [] && ys != [] {
      // the head of each list is the member of least rank
      assert Rank(xs[0]) <= Rank(ys[0]) by {
        assert ys[0] in xs;
      }
      assert Rank(ys[0]) <= Rank(xs[0]) by {
        assert xs[0] in ys;
      }
      assert xs[0] == ys[0];
      forall r ensures r in xs[1..] <==> r in ys[1..] {
        if r in xs[1..] {
          assert r != xs[0];
          assert r in ys;
        }
        if r in ys[1..] {
          assert r != ys[0];
          assert r in xs;
        }
      }
      InOrderUnique(xs[1..], ys[1..]);
    } else {
      SameMembersBothEmpty(xs, ys);
    }
  }

  lemma SameMembersBothEmpty(xs: seq<Rule>, ys: seq<Rule>)
    requires forall r :: r in xs <==> r in ys
    ensures xs == [] <==> ys == []
  {
    if xs != [] {
      assert xs[0] in ys;
    }
    if ys != [] {
      assert ys[0] in xs;
    }
  }

  // ---------------------------------------------------------------------------
  // Recycling category (lines 330-333)
  // ---------------------------------------------------------------------------

  const ContinueUse: string := "\U{2705} Can continue use"
  const PartialRecycling: string := "\U{26A0}\U{FE0F} Consider partial recycling"
  const RecycleRetire: string := "\U{1F534} Recycle / Retire"

  /** recycling_category: a three-way partition of the life score. */
  function RecyclingCategory(row: Row): (cat: string)
    requires NumericOrAbsent(row, "life_score")
    ensures cat == ContinueUse <==> Metric(row, "life_score") > 70.0
    ensures cat == PartialRecycling <==> 40.0 < Metric(row, "life_score") <= 70.0
    ensures cat == RecycleRetire <==> Metric(row, "life_score") <= 40.0
  {
    if Metric(row, "life_score") > 70.0 then ContinueUse
    else if Metric(row, "life_score") > 40.0 then PartialRecycling
    else RecycleRetire
  }

  /** How good a category is: retire < partial recycling < continue. */
  function Grade(cat: string): nat {
    if cat == ContinueUse then 2 else if cat == PartialRecycling then 1 else 0
  }

  /** A higher life score never yields a worse category. */
  lemma RecyclingMonotone(a: Row, b: Row)
    requires NumericOrAbsent(a, "life_score") && NumericOrAbsent(b, "life_score")
    requires Metric(a, "life_score") <= Metric(b, "life_score")
    ensures Grade(RecyclingCategory(a)) <= Grade(RecyclingCategory(b))
  {
  }

  // ---------------------------------------------------------------------------
  // Workload profile (lines 459-462)
  // ---------------------------------------------------------------------------

  const ComputeIntensive: string := "Compute-Intensive Workloads (AI/ML, HPC)"
  const MemoryIntensive: string := "Memory-Intensive Workloads (Rendering, Video Processing)"
  const BalancedLoad: string := "Balanced Workloads"

  /** workload_recommendation: compares the compute and memory loads. */
  function WorkloadRecommendation(row: Row): (w: string)
    requires NumericOrAbsent(row, "avg_sm_pct") && NumericOrAbsent(row, "avg_mem_pct")
    ensures w == ComputeIntensive <==> Metric(row, "avg_sm_pct") > Metric(row, "avg_mem_pct")
    ensures w == MemoryIntensive <==> Metric(row, "avg_mem_pct") > Metric(row, "avg_sm_pct")
    ensures w == BalancedLoad <==> Metric(row, "avg_sm_pct") == Metric(row, "avg_mem_pct")
  {
    if Metric(row, "avg_sm_pct") > Metric(row, "avg_mem_pct") then ComputeIntensive
    else if Metric(row, "avg_mem_pct") > Metric(row, "avg_sm_pct") then MemoryIntensive
    else BalancedLoad
  }

  /** Swapping the compute and memory loads swaps the compute and memory
      profiles and keeps the balanced one. */
  lemma WorkloadSwap(a: Row, b: Row)
    requires NumericOrAbsent(a, "avg_sm_pct") && NumericOrAbsent(a, "avg_mem_pct")
    requires NumericOrAbsent(b, "avg_sm_pct") && NumericOrAbsent(b, "avg_mem_pct")
    requires Metric(a, "avg_sm_pct") == Metric(b, "avg_mem_pct")
    requires Metric(a, "avg_mem_pct") == Metric(b, "avg_sm_pct")
    ensures WorkloadRecommendation(a) == ComputeIntensive <==> WorkloadRecommendation(b) == MemoryIntensive
    ensures WorkloadRecommendation(a) == MemoryIntensive <==> WorkloadRecommendation(b) == ComputeIntensive
    ensures WorkloadRecommendation(a) == BalancedLoad <==> WorkloadRecommendation(b) == BalancedLoad
  {
  }
}
