/** The iptables "quota" match extension: it turns the argument of --quota into the
    user-visible part of the match descriptor (a byte limit and an invert flag), checks
    that the option was given, and prints the descriptor back as listing text and as
    re-enterable command-line text. */
module Quota {
  import opened Decimal
  import opened CStrtoull

  /** Bit 0 of the descriptor's flags: the match is negated. */
  const XT_QUOTA_INVERT: bv8 := 1

  /** The value (bit 0) the option handler ORs into the host's per-match word once --quota
      was seen. */
  const QUOTA_SEEN: bv32 := 1

  /** The host's parameter-problem errors. Each one ends the program. */
  datatype Error =
    | QuotaInvalid(arg: string)
    | UnexpectedBang
    | QuotaMissing

  datatype Result<T> = Ok(value: T) | Err(error: Error)

  /** The message the host prints for each error. */
  function Message(e: Error): string {
    match e
    case QuotaInvalid(arg) => "quota invalid: '" + arg + "'\n"
    case UnexpectedBang => "quota: unexpected '!'"
    case QuotaMissing => "quota: the --quota argument must be specified\n"
  }

  /** The user-visible part of the descriptor: the byte limit and the flags, narrowed to a byte. The
      counter the kernel keeps after them is not part of it. */
  datatype Descriptor = Descriptor(quota: u64, flags: bv8)

  predicate Inverted(d: Descriptor) {
    d.flags & XT_QUOTA_INVERT != 0
  }

  /** The descriptor as the host hands it to the option handler, updated in place. */
  class QuotaInfo {
    var quota: u64
    var flags: bv8

    constructor (quota: u64, flags: bv8)
      ensures this.quota == quota && this.flags == flags
    {
      this.quota := quota;
      this.flags := flags;
    }

    function Value(): Descriptor
      reads this
    {
      Descriptor(quota, flags)
    }
  }

  /** The host's per-match word of option bits, which the handler ORs into. */
  class MatchFlags {
    var bits: bv32

    constructor ()
      ensures bits == 0
    {
      bits := 0;
    }
  }

  /** What converting the --quota argument yields: the value strtoull gives, unless that
      is the maximum, which is reserved to mean "invalid". */
  function QuotaValue(s: string): (r: Result<u64>)
    ensures r.Ok? ==> r.value != UINT64_MAX
    ensures r.Err? ==> r.error == QuotaInvalid(s)
  {
    var q := Strtoull(s);
    if q == UINT64_MAX then Err(QuotaInvalid(s)) else Ok(q)
  }

  /** Converts the argument and reports the value it wrote: the value is written before
      it is checked, so a rejected argument still leaves the maximum behind. */
  method ParseQuota(s: string) returns (quota: u64, r: Result<int>)
    ensures quota == Strtoull(s)
    ensures r.Ok? ==> r.value == 1 && QuotaValue(s) == Ok(quota)
    ensures r.Err? ==> QuotaValue(s) == Err(r.error)
  {
    quota := ConvertBase10(s);
    if quota == UINT64_MAX {
      r := Err(QuotaInvalid(s));
    } else {
      r := Ok(1);
    }
  }

  /** The effect of one option occurrence, when the process goes on. */
  datatype Step = Accepted(d: Descriptor, seen: bv32) | Rejected(error: Error)

  /** The option handler on values: the option code, its argument, whether a negation
      preceded the option, the descriptor and the host's word before the call. */
  function ParseStep(c: char, arg: string, invert: bool, d: Descriptor, seen: bv32): (r: Step)
    ensures c != '1' ==> r == Accepted(d, seen)
    ensures c == '1' && arg == "!" ==> r == Rejected(UnexpectedBang)
    ensures c == '1' && arg != "!" ==>
      (r.Rejected? <==> Strtoull(arg) == UINT64_MAX) &&
      (r.Rejected? ==> r.error == QuotaInvalid(arg))
    ensures r.Accepted? && c == '1' ==>
      r.d.quota == Strtoull(arg) && r.d.quota != UINT64_MAX &&
      r.seen == seen | QUOTA_SEEN &&
      (Inverted(r.d) <==> invert || Inverted(d))
  {
    if c != '1' then Accepted(d, seen)
    else if arg == "!" then Rejected(UnexpectedBang)
    else match QuotaValue(arg)
      case Err(e) => Rejected(e)
      case Ok(q) =>
        Accepted(Descriptor(q, if invert then d.flags | XT_QUOTA_INVERT else d.flags), seen | QUOTA_SEEN)
  }

  /** The option handler: on --quota (code '1') it refuses a bare "!" argument, converts
      the argument into the descriptor, adds the invert bit when a negation preceded the
      option and marks the option as seen. Any other code changes nothing. */
  method QuotaParse(c: char, arg: string, invert: bool, flags: MatchFlags, info: QuotaInfo)
    returns (r: Result<int>)
    modifies flags, info
    ensures var step := ParseStep(c, arg, invert, old(info.Value()), old(flags.bits));
      step.Accepted? ==> r == Ok(1) && info.Value() == step.d && flags.bits == step.seen
    ensures var step := ParseStep(c, arg, invert, old(info.Value()), old(flags.bits));
      step.Rejected? ==>
        r == Err(step.error) && flags.bits == old(flags.bits) && info.flags == old(info.flags) &&
        info.quota == if step.error == UnexpectedBang then old(info.quota) else UINT64_MAX
  {
    ghost var step := ParseStep(c, arg, invert, info.Value(), flags.bits);
    if c == '1' {
      if arg == "!" {
        assert step == Rejected(UnexpectedBang);
        return Err(UnexpectedBang);
      }
      var q, status := ParseQuota(arg);
      info.quota := q;
      if status.Err? {
        assert step == Rejected(status.error);
        return Err(status.error);
      }
      assert step.Accepted? && step.d.quota == q;
      if invert {
        info.flags := info.flags | XT_QUOTA_INVERT;
      }
      flags.bits := flags.bits | QUOTA_SEEN;
    }
    return Ok(1);
  }

  /** The final check: it fails exactly when no option was seen. */
  function QuotaCheck(flags: bv32): (r: Result<()>)
    ensures r.Err? <==> flags == 0
    ensures r.Err? ==> r.error == QuotaMissing
  {
    if flags == 0 then Err(QuotaMissing) else Ok(())
  }

  /** The listing text; the invert bit is not shown. */
  function Print(d: Descriptor): string {
    " quota: " + Render(d.quota) + " bytes"
  }

  /** The save text: "! " when the match is negated, then the option and its value. */
  function Save(d: Descriptor): string {
    (if Inverted(d) then "! " else "") + " --quota " + Render(d.quota)
  }

  // ---------------------------------------------------------------------------
  // Conversion of the argument

  /** Every value below the maximum is accepted from its own decimal text. */
  lemma QuotaValueOfRender(q: u64)
    requires q != UINT64_MAX
    ensures QuotaValue(Render(q)) == Ok(q)
  {
    RenderRoundTrip(q);
  }

  /** Any digit string that does not fit in 64 bits is refused, since the conversion
      saturates to the reserved maximum. */
  lemma OverflowRejected(digits: string)
    requires digits != [] && AllDigits(digits) && ValueOf(digits) > UINT64_MAX
    ensures QuotaValue(digits) == Err(QuotaInvalid(digits))
  {
    Saturates(digits);
  }

  /** The text of the maximum, "18446744073709551615", is refused, and so is the text of
      the first value beyond it. */
  lemma SentinelRejected()
    ensures QuotaValue("18446744073709551615") == Err(QuotaInvalid("18446744073709551615"))
    ensures QuotaValue(Render(TWO_64)) == Err(QuotaInvalid(Render(TWO_64)))
  {
    RenderMax();
    SaturationExamples();
  }

  /** Conversion reads only a prefix and is not strict: trailing text is dropped, text
      without digits is 0, and a minus sign wraps around modulo 2^64. */
  lemma LenientConversion()
    ensures QuotaValue("12k") == Ok(12)
    ensures QuotaValue("abc") == Ok(0)
    ensures QuotaValue("-5") == Ok(TWO_64 - 5)
    ensures QuotaValue("-1") == Err(QuotaInvalid("-1"))
  {
    TrailingTextExample();
    NoDigitsExample();
    MinusFiveExample();
    MinusOneExample();
  }

  // ---------------------------------------------------------------------------
  // The option handler

  /** Parsing the decimal text of any value below the maximum stores exactly that value,
      adds the invert bit exactly when asked to and marks the option as seen. */
  lemma ParseRendered(q: u64, invert: bool, d: Descriptor, seen: bv32)
    requires q != UINT64_MAX
    ensures ParseStep('1', Render(q), invert, d, seen) ==
      Accepted(Descriptor(q, if invert then d.flags | XT_QUOTA_INVERT else d.flags), seen | QUOTA_SEEN)
  {
    assert Render(q) != "!" by {
      assert IsDigit(Render(q)[0]);
    }
    QuotaValueOfRender(q);
  }

  /** The handler only ORs bits in: no bit of the flags or of the host's word is ever
      cleared, and the flags bits other than the invert bit are left as they were. */
  lemma ParseOnlyAddsBits(c: char, arg: string, invert: bool, d: Descriptor, seen: bv32)
    requires ParseStep(c, arg, invert, d, seen).Accepted?
    ensures var r := ParseStep(c, arg, invert, d, seen);
      r.seen & seen == seen && r.d.flags & d.flags == d.flags &&
      r.d.flags & !XT_QUOTA_INVERT == d.flags & !XT_QUOTA_INVERT
  {
  }

  /** Setting a bit that is already set leaves a word as it is. */
  lemma OrAgain(a: bv32, b: bv32)
    ensures (a | b) | b == a | b
  {
  }

  lemma OrAgainByte(a: bv8, b: bv8)
    ensures (a | b) | b == a | b
  {
  }

  /** Repeating the same option occurrence changes nothing further. */
  lemma ParseIdempotent(c: char, arg: string, invert: bool, d: Descriptor, seen: bv32)
    requires ParseStep(c, arg, invert, d, seen).Accepted?
    ensures var r := ParseStep(c, arg, invert, d, seen);
      ParseStep(c, arg, invert, r.d, r.seen) == r
  {
    OrAgain(seen, QUOTA_SEEN);
    OrAgainByte(d.flags, XT_QUOTA_INVERT);
  }

  /** One option occurrence on the command line, as the host passes it to the handler. */
  datatype Occurrence = Occurrence(code: char, arg: string, invert: bool)

  /** The handler applied to the occurrences of one rule in order; the first error ends
      the process and so the run. */
  function Run(occs: seq<Occurrence>, d: Descriptor, seen: bv32): Step
    decreases |occs|
  {
    if occs == [] then Accepted(d, seen)
    else match ParseStep(occs[0].code, occs[0].arg, occs[0].invert, d, seen)
      case Rejected(e) => Rejected(e)
      case Accepted(d1, seen1) => Run(occs[1..], d1, seen1)
  }

  predicate Mentions(occs: seq<Occurrence>) {
    exists i :: 0 <= i < |occs| && occs[i].code == '1'
  }

  predicate MentionsNegated(occs: seq<Occurrence>) {
    exists i :: 0 <= i < |occs| && occs[i].code == '1' && occs[i].invert
  }

  /** Running two lists of occurrences one after the other is running their concatenation. */
  lemma {:induction false} RunAppend(a: seq<Occurrence>, b: seq<Occurrence>, d: Descriptor, seen: bv32)
    ensures Run(a + b, d, seen) ==
      match Run(a, d, seen)
      case Rejected(e) => Rejected(e)
      case Accepted(d1, seen1) => Run(b, d1, seen1)
    decreases |a|
  {
    if a == [] {
      assert a + b == b;
    } else {
      assert (a + b)[0] == a[0] && (a + b)[1..] == a[1..] + b;
      var o := a[0];
      match ParseStep(o.code, o.arg, o.invert, d, seen)
      case Rejected(e) =>
      case Accepted(d1, seen1) => RunAppend(a[1..], b, d1, seen1);
    }
  }

  /** Splitting the first occurrence off a list: --quota occurs in it exactly when it is
      the first one or occurs in the rest, and likewise for a negated --quota. */
  lemma MentionsCons(occs: seq<Occurrence>)
    requires occs != []
    ensures Mentions(occs) <==> occs[0].code == '1' || Mentions(occs[1..])
    ensures MentionsNegated(occs) <==>
      (occs[0].code == '1' && occs[0].invert) || MentionsNegated(occs[1..])
  {
    if Mentions(occs[1..]) {
      var i :| 0 <= i < |occs[1..]| && occs[1..][i].code == '1';
      assert occs[i + 1].code == '1';
    }
    if MentionsNegated(occs[1..]) {
      var i :| 0 <= i < |occs[1..]| && occs[1..][i].code == '1' && occs[1..][i].invert;
      assert occs[i + 1].code == '1' && occs[i + 1].invert;
    }
  }

  /** The host's word ends up with the seen bit added exactly when --quota occurred. */
  lemma {:induction false} RunMarksSeen(occs: seq<Occurrence>, d: Descriptor, seen: bv32)
    requires Run(occs, d, seen).Accepted?
    ensures Run(occs, d, seen).seen == if Mentions(occs) then seen | QUOTA_SEEN else seen
    decreases |occs|
  {
    if occs != [] {
      var o := occs[0];
      var step := ParseStep(o.code, o.arg, o.invert, d, seen);
      RunMarksSeen(occs[1..], step.d, step.seen);
      MentionsCons(occs);
      OrAgain(seen, QUOTA_SEEN);
    }
  }

  /** The invert bit is set at the end exactly when it was set before or some --quota
      occurrence was negated: a later occurrence never removes it. */
  lemma {:induction false} RunKeepsInvert(occs: seq<Occurrence>, d: Descriptor, seen: bv32)
    requires Run(occs, d, seen).Accepted?
    ensures Inverted(Run(occs, d, seen).d) <==> Inverted(d) || MentionsNegated(occs)
    decreases |occs|
  {
    if occs != [] {
      var o := occs[0];
      var step := ParseStep(o.code, o.arg, o.invert, d, seen);
      RunKeepsInvert(occs[1..], step.d, step.seen);
      MentionsCons(occs);
    }
  }

  /** A descriptor built by the handler never holds the reserved maximum. */
  lemma {:induction false} RunAvoidsSentinel(occs: seq<Occurrence>, d: Descriptor, seen: bv32)
    requires Run(occs, d, seen).Accepted? && d.quota != UINT64_MAX
    ensures Run(occs, d, seen).d.quota != UINT64_MAX
    decreases |occs|
  {
    if occs != [] {
      var o := occs[0];
      var step := ParseStep(o.code, o.arg, o.invert, d, seen);
      RunAvoidsSentinel(occs[1..], step.d, step.seen);
    }
  }

  /** After the options of a rule were handled from a clear word, the final check fails
      exactly when --quota never occurred. */
  lemma CheckAfterRun(occs: seq<Occurrence>, d: Descriptor)
    requires Run(occs, d, 0).Accepted?
    ensures QuotaCheck(Run(occs, d, 0).seen).Err? <==> !Mentions(occs)
  {
    RunMarksSeen(occs, d, 0);
  }

  /** With --quota given several times, the last occurrence decides the limit. */
  lemma LastQuotaWins(occs: seq<Occurrence>, arg: string, invert: bool, d: Descriptor, seen: bv32)
    requires Run(occs + [Occurrence('1', arg, invert)], d, seen).Accepted?
    ensures Run(occs + [Occurrence('1', arg, invert)], d, seen).d.quota == Strtoull(arg)
  {
    RunAppend(occs, [Occurrence('1', arg, invert)], d, seen);
  }

  // ---------------------------------------------------------------------------
  // Listing and saving

  /** The listing text reads " quota: ", the limit, " bytes": the limit can be read back
      from what follows " quota: ". */
  lemma PrintReadsBack(d: Descriptor)
    ensures Print(d)[..8] == " quota: "
    ensures Strtoull(Print(d)[8..]) == d.quota
  {
    assert Print(d)[8..] == Render(d.quota) + " bytes";
    IgnoresTail(d.quota, " bytes");
  }

  /** The listing text shows the limit and nothing else: two descriptors print alike
      exactly when their limits agree, whatever their invert bits. */
  lemma PrintShowsOnlyQuota(d: Descriptor, e: Descriptor)
    ensures Print(d) == Print(e) <==> d.quota == e.quota
  {
    if Print(d) == Print(e) {
      PrintReadsBack(d);
      PrintReadsBack(e);
    }
  }

  /** The save text starts with "! " exactly when the invert bit is set. */
  lemma SaveMarksNegation(d: Descriptor)
    ensures |Save(d)| >= 2 && (Save(d)[..2] == "! " <==> Inverted(d))
  {
    if !Inverted(d) {
      assert Save(d)[0] == ' ';
    }
  }

  /** Feeding the saved text back to the handler rebuilds the descriptor: after the
      optional "! " comes the option " --quota ", and its argument, handed to the handler
      with the negation the prefix stands for, gives a fresh descriptor the same limit and
      the same invert bit, and marks the option as seen. This needs the stored limit to be
      below the maximum, which every descriptor the handler accepted satisfies. */
  lemma SaveRoundTrip(d: Descriptor)
    requires d.quota != UINT64_MAX
    ensures var k := if Inverted(d) then 2 else 0;
      |Save(d)| > k + 9 && Save(d)[k..k + 9] == " --quota " &&
      match ParseStep('1', Save(d)[k + 9..], Inverted(d), Descriptor(0, 0), 0)
      case Accepted(d1, seen) =>
        d1.quota == d.quota && (Inverted(d1) <==> Inverted(d)) && seen == QUOTA_SEEN
      case Rejected(_) => false
  {
    var k := if Inverted(d) then 2 else 0;
    assert Save(d)[k..k + 9] == " --quota " && Save(d)[k + 9..] == Render(d.quota);
    ParseRendered(d.quota, Inverted(d), Descriptor(0, 0), 0);
  }
}
