/**
 * `QRGenerator.create`: choose a QR version from a requested number of
 * modules per side, encode at error-correction level M, and fall back to
 * automatic version selection when the encoder refuses the guessed version.
 * A version V symbol has 4V+17 modules per side (ISO/IEC 18004, clause 5.3.1);
 * version 0 asks the encoder to pick the smallest version that fits.
 */
module QrVersion {
  import opened Wrappers

  /** Error-correction levels of a QR symbol. */
  datatype Ecl = L | M | Q | H

  /** A module matrix, row by row; `true` is a dark module. */
  type Symbol = seq<seq<bool>>

  /** One call of the encoder library: version (0 for automatic), level and text. */
  datatype EncodeRequest = EncodeRequest(version: int, level: Ecl, text: string)

  /** The encoder library: a request to a module matrix, or None where the library throws. */
  type Encoder = EncodeRequest -> Option<Symbol>

  /** `Math.round`: halves round up. */
  function JsRound(x: real): (n: int)
    ensures n as real - 0.5 <= x < n as real + 0.5
  {
    (x + 0.5).Floor
  }

  /**
   * The clamp of the size field, `Math.max(21, Math.min(57, parsed))`. A
   * field that does not parse (NaN, written None) stays NaN, since both
   * bounds propagate NaN.
   */
  function ClampModules(parsed: Option<int>): (r: Option<int>)
    ensures parsed.None? <==> r.None?
    ensures r.Some? ==> 21 <= r.value <= 57
    ensures parsed.Some? && 21 <= parsed.value <= 57 ==> r == parsed
    ensures parsed.Some? && parsed.value < 21 ==> r == Some(21)
    ensures parsed.Some? && parsed.value > 57 ==> r == Some(57)
  {
    match parsed
    case None => None
    case Some(p) =>
      var lo := if p <= 57 then p else 57;
      Some(if lo >= 21 then lo else 21)
  }

  /**
   * The version guess: round((hint − 17) / 4) when that is a valid
   * version 1..40, otherwise 0 (automatic); a NaN hint gives 0. A version
   * is guessed exactly for hints 19..178, and its side 4V+17 is then the
   * nearest to the hint (within 2 modules, halves going to the larger side).
   */
  function GuessVersion(hint: Option<int>): (v: int)
    ensures v == 0 || 1 <= v <= 40
    ensures hint.None? ==> v == 0
    ensures hint.Some? ==> (v != 0 <==> 19 <= hint.value <= 178)
    ensures hint.Some? && v != 0 ==> -2 < 4 * v + 17 - hint.value <= 2
  {
    match hint
    case None => 0
    case Some(h) =>
      var guess := JsRound((h - 17) as real / 4.0);
      if 1 <= guess <= 40 then guess else 0
  }

  /** The guess inverts the size rule: a hint of exactly 4V+17 modules selects version V. */
  lemma GuessInvertsSize(v: int)
    requires 1 <= v <= 40
    ensures GuessVersion(Some(4 * v + 17)) == v
  {
    assert (4 * v + 17 - 17) as real / 4.0 == v as real;
  }

  /** For every hint the size field can produce (21..57) a version 1..10 is chosen, whose side is within 2 modules of the hint. */
  lemma GuessNearHint(h: int)
    requires 21 <= h <= 57
    ensures var v := GuessVersion(Some(h));
      1 <= v <= 10 && -2 <= 4 * v + 17 - h <= 2
  {
    var x := (h - 17) as real / 4.0;
    var g := JsRound(x);
    assert 1.0 <= x <= 10.0;
    assert 4.0 * x == (h - 17) as real;
  }

  /**
   * `QRGenerator.create`: encode at the guessed version, level M; if that
   * throws, encode the same text at version 0, level M; if that throws too,
   * the error reaches the caller (None).
   */
  function Create(text: string, hint: Option<int>, encode: Encoder): (r: Option<Symbol>)
    ensures r.Some? ==> r == encode(EncodeRequest(GuessVersion(hint), M, text)) || r == encode(EncodeRequest(0, M, text))
    ensures r.None? <==> encode(EncodeRequest(GuessVersion(hint), M, text)).None? && encode(EncodeRequest(0, M, text)).None?
    ensures encode(EncodeRequest(GuessVersion(hint), M, text)).Some? ==> r == encode(EncodeRequest(GuessVersion(hint), M, text))
  {
    var first := encode(EncodeRequest(GuessVersion(hint), M, text));
    if first.Some? then first else encode(EncodeRequest(0, M, text))
  }

  /** Without a usable hint the fallback is the only attempt that matters: the result is the automatic encoding. */
  lemma CreateWithoutHint(text: string, encode: Encoder)
    ensures Create(text, None, encode) == encode(EncodeRequest(0, M, text))
  {
  }
}
