/**
 * The staff check-in page: `handleDecoded` checks a scanned text for an
 * e-mail address and a selected booth, and hands the normalised address to
 * the check-in callback. Its only effect is the status it sets, so it is
 * modelled as a function from the scan, the selected booth and the
 * callback's answer to the status and the callback call.
 */
module StaffScanPage {
  import opened Wrappers
  import Text
  import Sorting

  /** Shown in front of an invalid scan. */
  const INVALID_PREFIX: string := "⚠️ QR ไม่ถูกต้อง: "
  /** Shown when no booth is selected. */
  const NO_BOOTH_MSG: string := "กรุณาเลือกบูธก่อนสแกน"
  /** Shown when the callback answers nothing. */
  const SUCCESS_MSG: string := "✅ เช็คอินสำเร็จ"
  /** At most this many characters of an invalid scan are shown. */
  const SHOWN_MAX: nat := 32

  datatype Kind = Success | Warn | Error

  /** The status line of the page. */
  datatype Status = Status(kind: Kind, msg: string)

  /** The argument of `onCheckin`. */
  datatype Call = Call(email: string, boothId: int)

  /** What one scan does: the status it sets and the callback call it makes, if any. */
  datatype Outcome = Outcome(status: Status, call: Option<Call>)

  /** `!boothId` in JavaScript: no booth, or booth 0. */
  predicate NoBooth(boothId: Option<int>) {
    boothId.None? || boothId.value == 0
  }

  /**
   * `handleDecoded(raw)`. `raw` is the scanned text ("" for a missing one),
   * `boothId` the selected booth and `answer` what `onCheckin` returns when
   * called (None for a falsy result). The callback is called exactly when
   * the trimmed text has '@' and a booth other than 0 is selected, with the
   * trimmed, lower-cased text and the booth; every
   * scan that makes no call warns, naming the missing booth when the text
   * was an address.
   */
  function HandleDecoded(raw: string, boothId: Option<int>, answer: Option<Status>): (o: Outcome)
    ensures o.call.Some? <==> '@' in Text.Trim(raw) && !NoBooth(boothId)
    ensures o.call.None? ==> o.status.kind == Warn
    ensures '@' in Text.Trim(raw) && NoBooth(boothId) ==> o.status == Status(Warn, NO_BOOTH_MSG)
    ensures o.call.Some? ==> o.call.value == Call(Text.Lower(Text.Trim(raw)), boothId.value)
  {
    var text := Text.Trim(raw);
    if '@' !in text then Outcome(Status(Warn, INVALID_PREFIX + Sorting.Take(text, SHOWN_MAX)), None)
    else if NoBooth(boothId) then Outcome(Status(Warn, NO_BOOTH_MSG), None)
    else Outcome(answer.GetOr(Status(Success, SUCCESS_MSG)), Some(Call(Text.Lower(text), boothId.value)))
  }

  /** A scan without '@' only warns, showing at most 32 characters of the trimmed text. */
  lemma InvalidScan(raw: string, boothId: Option<int>, answer: Option<Status>)
    requires '@' !in Text.Trim(raw)
    ensures var o := HandleDecoded(raw, boothId, answer);
      o.call.None? && o.status.kind == Warn
      && |INVALID_PREFIX| <= |o.status.msg| <= |INVALID_PREFIX| + SHOWN_MAX
      && o.status.msg[..|INVALID_PREFIX|] == INVALID_PREFIX
      && o.status.msg[|INVALID_PREFIX|..] == Text.Trim(raw)[..|o.status.msg| - |INVALID_PREFIX|]
  {
  }

  /** Lower-casing never turns a character into white space or out of it. */
  lemma LowerKeepsSpace(c: char)
    ensures Text.IsJsSpace(Text.LowerChar(c)) == Text.IsJsSpace(c)
  {
  }

  /**
   * When called, the callback gets the booth and the trimmed, lower-cased
   * scan: an address that holds '@', has no white space at either end and
   * no ASCII capitals, and that
   * normalising again leaves unchanged; the status is its answer, or the
   * success status when it answers nothing.
   */
  lemma CallNormalised(raw: string, boothId: Option<int>, answer: Option<Status>)
    requires HandleDecoded(raw, boothId, answer).call.Some?
    ensures var o := HandleDecoded(raw, boothId, answer);
      var e := o.call.value.email;
      e == Text.Lower(Text.Trim(raw))
      && o.call.value.boothId == boothId.value
      && o.status == answer.GetOr(Status(Success, SUCCESS_MSG))
      && '@' in e
      && (forall i :: 0 <= i < |e| ==> !('A' <= e[i] <= 'Z'))
      && (e != [] ==> !Text.IsJsSpace(e[0]) && !Text.IsJsSpace(e[|e| - 1]))
      && Text.Lower(Text.Trim(e)) == e
  {
    var text := Text.Trim(raw);
    var e := Text.Lower(text);
    var k :| 0 <= k < |text| && text[k] == '@';
    assert e[k] == '@';
    LowerKeepsSpace(text[0]);
    LowerKeepsSpace(text[|text| - 1]);
    Text.TrimByNoEnds(e, Text.IsJsSpace);
    Text.LowerIdempotent(text);
  }
}
