# The iptables "quota" match extension, in Dafny

This project models `extensions/libxt_quota.c`, the user-space half of the iptables
"quota" match. The extension reads the `--quota` option (with an optional preceding
negation) into the user-visible part of the match descriptor: a 64-bit byte limit and a
flags field whose bit 0 is `XT_QUOTA_INVERT`. It ORs the value 1 (bit 0) into the host's
per-match option word ("the option was seen"). Its final check fails when that word is still 0.
It renders the descriptor as listing text (`quota_print`) and as command-line text that
can be entered again (`quota_save`).

The files:

- `decimal.dfy`, module `Decimal`: digit characters, `ValueOf` (the number a digit string
  denotes) and `Render` (the text `printf("%llu")` prints).
- `strtoull.dfy`, module `CStrtoull`: the C library's `strtoull(s, NULL, 10)` as section
  7.22.1.4 of ISO/IEC 9899:2011 specifies it, with the "C" locale and a 64-bit
  `unsigned long long`. It skips white-space, takes an optional `+` or `-`, reads the
  longest run of digits and ignores the rest. With no digits the result is 0. A magnitude
  above 2^64−1 saturates to 2^64−1, and a leading `-` negates the magnitude modulo 2^64.
  `Strtoull` is the specification. `ConvertBase10` and `AccumulateDigits` are the
  character loops, proved equal to it. The accumulator stays within 64 bits by the usual
  cut-off test.
- `quota.dfy`, module `Quota`: the extension itself. `QuotaInfo` is the descriptor that
  the handler updates in place. `MatchFlags` is the host's option word. `ParseQuota` and
  `QuotaParse` are `parse_quota` and `quota_parse` as methods on those objects. `ParseStep`
  is the same handler on values. `Run` applies it to a rule's option occurrences in order,
  so that lemmas can relate several calls. `QuotaCheck`, `Print` and `Save` are
  `quota_check`, `quota_print` and `quota_save`.

Each `xtables_error` call ends the program. The model returns it as an `Err` value of
type `Error` instead, and `Message` gives the text the host prints. Output that the
source writes with `printf` is returned as a string.

Points where the code's behaviour is easy to miss. The model follows the code in each:

- The conversion is not strict. The end pointer is `NULL`, so trailing text is ignored.
  With no leading digit the value is 0 and is accepted (`"abc"` gives 0). A leading minus
  wraps around (`"-5"` gives 2^64−5). Only a result equal to 2^64−1 is refused. That
  covers `"18446744073709551615"`, every digit string that overflows, and `"-1"`.
- A `--quota` argument that is exactly `!` is always refused. When no negation came
  before it, the message is "quota: unexpected '!'". When one did, the host helper
  refuses it first with a different message, which is left out (see "## Left out").
- The listing text starts with a space: `" quota: 42 bytes"`.
- `parse_quota` writes the converted value into the descriptor before it checks it.
  When it refuses the value, the descriptor is left holding 2^64−1 as the program ends.
  `QuotaParse` states this.

## Model

| member | source | states |
|---|---|---|
| `Decimal.Render` | extensions/libxt_quota.c:30 | the `%llu` text of a number is a non-empty string of digits, with no leading zero unless the number is 0 |
| `Decimal.ValueOfRender` | extensions/libxt_quota.c:40 | the digits `%llu` prints denote exactly the printed number |
| `CStrtoull.Reduce` | extensions/libxt_quota.c:47 | strtoull's range rule gives the reserved maximum exactly when the magnitude overflows, or is 2^64−1 without a sign, or is 1 after a minus |
| `CStrtoull.ConvertBase10` | extensions/libxt_quota.c:47 | the character loops (skip white-space, sign, accumulate digits, range rule) compute exactly `Strtoull` |
| `CStrtoull.AccumulateDigits` | extensions/libxt_quota.c:47 | accumulating the leading digit run against the 64-bit cut-off reports overflow exactly when the run's value exceeds 2^64−1, and otherwise yields that value |
| `CStrtoull.DigitRunIs` | extensions/libxt_quota.c:47 | the digit run read is the longest prefix made of digits |
| `CStrtoull.Decompose` | extensions/libxt_quota.c:47 | white-space, a sign, digits, then anything not starting with a digit converts to the digits' value, negated for `-` and saturated on overflow |
| `CStrtoull.SubjectIs` | extensions/libxt_quota.c:47 | after white-space and a sign, the text that starts with a digit is where the digit run is taken from, and only a `-` sign negates |
| `CStrtoull.SkipSpacesOver` | extensions/libxt_quota.c:47 | all the leading white-space is skipped |
| `CStrtoull.RenderRoundTrip` | extensions/libxt_quota.c:47 | the decimal text of every 64-bit value converts back to that value |
| `CStrtoull.IgnoresTail` | extensions/libxt_quota.c:47 | text that does not start with a digit, after the decimal text of a 64-bit value, does not change the result (`Decompose` covers any digit run) |
| `CStrtoull.Saturates` | extensions/libxt_quota.c:47 | a digit string whose value exceeds 2^64−1 converts to 2^64−1 |
| `CStrtoull.NegatesModulo` | extensions/libxt_quota.c:47 | `"-"` followed by the text of q converts to (2^64 − q) mod 2^64 |
| `CStrtoull.NoDigits` | extensions/libxt_quota.c:47 | without a digit after the white-space and sign, the result is 0 |
| `CStrtoull.TrailingTextExample` | extensions/libxt_quota.c:47 | `"12k"` converts to 12 |
| `CStrtoull.NoDigitsExample` | extensions/libxt_quota.c:47 | `"abc"` converts to 0 |
| `CStrtoull.SignedExample` | extensions/libxt_quota.c:47 | `" \t+7"` converts to 7 |
| `CStrtoull.MinusFiveExample` | extensions/libxt_quota.c:47 | `"-5"` converts to 2^64−5 |
| `CStrtoull.MinusOneExample` | extensions/libxt_quota.c:47 | `"-1"` converts to 2^64−1 |
| `CStrtoull.Strtoull` | extensions/libxt_quota.c:47 | no ensures: its body is the definition of `strtoull(s, NULL, 10)`; `ConvertBase10` is proved equal to it, and `Decompose`, `RenderRoundTrip`, `Saturates`, `NegatesModulo` and `NoDigits` state its properties |
| `CStrtoull.RenderMax` | extensions/libxt_quota.c:53 | the `%llu` text of 2^64−1 is "18446744073709551615" |
| `CStrtoull.SaturationExamples` | extensions/libxt_quota.c:47 | "18446744073709551615" and the text of 2^64 both convert to 2^64−1 |
| `Quota.Message` | extensions/libxt_quota.c:54-85 | no ensures: its body gives the text the host prints for each error: "quota invalid: '<arg>'", "quota: unexpected '!'" and "quota: the --quota argument must be specified" |
| `Quota.QuotaInfo` | extensions/libxt_quota.c:63 | the descriptor the handler updates in place, holding the limit and the flags; `QuotaParse` states its new state and `QuotaInfo.constructor` its initial one |
| `Quota.QuotaInfo.constructor` | extensions/libxt_quota.c:63 | a new descriptor holds exactly the given limit and flags |
| `Quota.MatchFlags` | extensions/libxt_quota.c:60 | the host's option word `*flags`, which the handler ORs into; `QuotaParse` states its new value |
| `Quota.MatchFlags.constructor` | extensions/libxt_quota.c:81-86 | the host's option word starts clear, so the final check fails until the handler has marked the option seen |
| `Quota.QuotaValue` | extensions/libxt_quota.c:47-56 | an accepted argument never yields the reserved value 2^64−1; a refused one reports "quota invalid" with the argument |
| `Quota.ParseQuota` | extensions/libxt_quota.c:44-57 | the value written is strtoull's result, and the call succeeds (returns 1) exactly when that value is not 2^64−1 |
| `Quota.ParseStep` | extensions/libxt_quota.c:59-79 | an option code other than '1' changes nothing; a bare `!` is refused; otherwise the argument is refused exactly when it converts to 2^64−1, and if it is accepted the limit is the converted value, the seen bit is ORed in, and the invert bit is set afterwards exactly when it was set before or a negation was given |
| `Quota.QuotaParse` | extensions/libxt_quota.c:59-79 | the method's new descriptor, new host word and result are those `ParseStep` gives; a bare `!` changes nothing; a refused value leaves 2^64−1 in the limit and nothing else changed |
| `Quota.QuotaCheck` | extensions/libxt_quota.c:81-86 | the final check fails with "must be specified" exactly when the host word is 0 |
| `Quota.QuotaValueOfRender` | extensions/libxt_quota.c:47-56 | every value below 2^64−1 is accepted from its decimal text, as exactly that value |
| `Quota.OverflowRejected` | extensions/libxt_quota.c:53-54 | every digit string that overflows 64 bits is refused |
| `Quota.SentinelRejected` | extensions/libxt_quota.c:53-54 | the argument "18446744073709551615" is refused with "quota invalid", and so is the text of 2^64 |
| `Quota.LenientConversion` | extensions/libxt_quota.c:47-56 | `"12k"` is accepted as 12, `"abc"` as 0, `"-5"` as 2^64−5, and `"-1"` is refused |
| `Quota.ParseRendered` | extensions/libxt_quota.c:65-78 | handling `--quota` with the decimal text of q < 2^64−1 stores exactly q, ORs in the invert bit exactly when negated, and ORs the seen bit (value 1) into the host word |
| `Quota.ParseOnlyAddsBits` | extensions/libxt_quota.c:73-75 | the handler never clears a bit of the flags or of the host word, and leaves every flags bit except the invert bit alone |
| `Quota.ParseIdempotent` | extensions/libxt_quota.c:65-78 | handling the same occurrence again changes nothing further |
| `Quota.RunAppend` | extensions/libxt_quota.c:59-79 | handling two lists of occurrences in turn equals handling their concatenation, and the first refusal ends the run |
| `Quota.RunMarksSeen` | extensions/libxt_quota.c:75 | after a rule's occurrences, the host word has the seen bit (value 1) ORed in exactly when `--quota` occurred, and is unchanged otherwise |
| `Quota.RunKeepsInvert` | extensions/libxt_quota.c:73-74 | the invert bit is set at the end exactly when it was set at the start or some `--quota` was negated, so it is never removed |
| `Quota.RunAvoidsSentinel` | extensions/libxt_quota.c:53-56 | a descriptor built by the handler never holds 2^64−1 |
| `Quota.CheckAfterRun` | extensions/libxt_quota.c:81-86 | starting from a clear host word, the final check fails exactly when `--quota` never occurred |
| `Quota.Run` | extensions/libxt_quota.c:59-79 | no ensures: its body applies the handler to a rule's occurrences in order and stops at the first error, as the host calls `quota_parse` once per option; `RunAppend`, `RunMarksSeen`, `RunKeepsInvert`, `RunAvoidsSentinel`, `CheckAfterRun` and `LastQuotaWins` state its properties |
| `Quota.LastQuotaWins` | extensions/libxt_quota.c:69 | when `--quota` is given several times, the last occurrence decides the limit |
| `Quota.Print` | extensions/libxt_quota.c:26-31 | no ensures: its body is the text `quota_print` writes, `" quota: "`, the `%llu` text of the limit and `" bytes"`; `PrintReadsBack` and `PrintShowsOnlyQuota` state its properties |
| `Quota.Save` | extensions/libxt_quota.c:33-41 | no ensures: its body is the text `quota_save` writes, `"! "` when inverted, then `" --quota "` and the `%llu` text of the limit; `SaveMarksNegation` and `SaveRoundTrip` state its properties |
| `Quota.PrintReadsBack` | extensions/libxt_quota.c:26-31 | the listing text starts with `" quota: "`, and what follows converts back to the limit |
| `Quota.PrintShowsOnlyQuota` | extensions/libxt_quota.c:26-31 | two descriptors list alike exactly when their limits are equal, whatever their invert bits |
| `Quota.SaveMarksNegation` | extensions/libxt_quota.c:38-39 | the save text starts with `"! "` exactly when the invert bit is set |
| `Quota.SaveRoundTrip` | extensions/libxt_quota.c:33-41 | after the optional `"! "` the save text has `" --quota "`; handing what follows to the handler, with the negation the prefix stands for, gives a fresh descriptor the same limit and invert bit and marks the option seen |

## Left out

- `quota_help` (extensions/libxt_quota.c:20-24) and the table `quota_opts` (:15-18): both are static text and data.
- The registration record `quota_match` and `_init` (:88-106), with its `size` and `userspacesize`. These depend on `struct xt_quota_info` in `linux/netfilter/xt_quota.h` and on `XT_ALIGN`, which are not part of this model.
- `XT_QUOTA_INVERT` is taken to be 1 (bit 0), the value `linux/netfilter/xt_quota.h` gives it. That header is not part of this model.
- The kernel-side counter `master` and the enforcement of the limit against traffic.
- The `DEBUG_XT_QUOTA` trace (:49-51).
- The "bad quota" error (:69-71): `parse_quota` either ends the program or returns 1, so that branch can never run.
- `xtables_check_inverse` (:67) is a host helper and is modelled as "the argument is exactly `!`". Its own internals are left out: the deprecation notice it prints, and its "Multiple `!' flags not allowed" error when a negation was already given. In both cases the handler fails and stores nothing.
- getopt's global `optarg`, `argv` and the `entry`/`match` pointers: the argument, the descriptor and the host word are passed in directly. Splitting the saved text into command-line words, and the host's handling of `!` before an option, are not modelled. `SaveRoundTrip` passes the handler the text after `" --quota "` and the negation that the `"! "` prefix stands for.
- `Quota.SaveRoundTrip`: the host fills a new descriptor with zeros before parsing. The lemma therefore starts from `Descriptor(0, 0)` and a host word of 0.
- The descriptor's `flags` field is 32 bits wide in `struct xt_quota_info` (`linux/netfilter/xt_quota.h`, not part of this model). The model narrows it to a byte. Only bit 0 is ever ORed in, so nothing the handler does depends on the width, but bits 8-31 of the field are not represented.
- strtoull's `errno`, which the source never reads. Locales other than "C". Bases other than 10.
- Process termination: every error is returned as a value.
