/**
 * The single device-storage slot that holds the day's pending shift entry
 * (key `shift-track-entry`). The browser stores the entry as JSON text; this
 * model uses its own self-delimiting text format with the same fields, so that
 * "loading what was saved gives back the entry" and "text that does not parse
 * loads as nothing" can be proved.
 */
module LocalSlot {
  import opened Wrappers
  import opened Text

  /** Instants are milliseconds since the epoch. */
  type Instant = int

  /**
   * The stored record. A field the source leaves undefined (`synced`,
   * `swapOutSynced` in the entry written by the start handler) is `false`:
   * every reader only tests it for truthiness.
   */
  datatype LocalEntry = LocalEntry(
    id: Option<string>,
    swapIn: Option<Instant>,
    swapOut: Option<Instant>,
    synced: bool,
    swapOutSynced: bool)

  // ----- encoding -----

  function EncodeText(o: Option<string>): string {
    match o
    case None => "n"
    case Some(s) => "s" + NatToString(|s|) + ":" + s
  }

  function EncodeInstant(o: Option<Instant>): string {
    match o
    case None => "n"
    case Some(t) => (if t < 0 then "-" else "+") + NatToString(if t < 0 then -t else t) + ";"
  }

  function EncodeFlag(b: bool): string {
    if b then "t" else "f"
  }

  /** The text `saveLocalEntry` writes to the slot. */
  function Encode(e: LocalEntry): (s: string)
    ensures s != []
  {
    EncodeText(e.id) + EncodeInstant(e.swapIn) + EncodeInstant(e.swapOut)
      + EncodeFlag(e.synced) + EncodeFlag(e.swapOutSynced)
  }

  // ----- decoding -----

  /** Length of the run of digits at the front of `s`. */
  function DigitRun(s: string): (k: nat)
    ensures k <= |s| && AllDigits(s[..k])
    ensures k < |s| ==> !IsDigit(s[k])
  {
    if s != [] && IsDigit(s[0]) then
      var k := 1 + DigitRun(s[1..]);
      assert s[..k] == [s[0]] + s[1..][..k - 1];
      k
    else 0
  }

  function ParseNat(s: string): Option<(nat, string)> {
    var k := DigitRun(s);
    if k == 0 then None else Some((DigitsValue(s[..k]), s[k..]))
  }

  function DecodeText(s: string): Option<(Option<string>, string)> {
    if s == [] then None
    else if s[0] == 'n' then Some((None, s[1..]))
    else if s[0] == 's' then
      match ParseNat(s[1..])
      case None => None
      case Some((len, r)) =>
        if r != [] && r[0] == ':' && len <= |r| - 1 then Some((Some(r[1..1 + len]), r[1 + len..]))
        else None
    else None
  }

  function DecodeInstant(s: string): Option<(Option<Instant>, string)> {
    if s == [] then None
    else if s[0] == 'n' then Some((None, s[1..]))
    else if s[0] == '+' || s[0] == '-' then
      match ParseNat(s[1..])
      case None => None
      case Some((n, r)) =>
        var t: Instant := if s[0] == '-' then -(n as int) else n;
        if r != [] && r[0] == ';' then Some((Some(t), r[1..])) else None
    else None
  }

  function DecodeFlag(s: string): Option<(bool, string)> {
    if s == [] then None
    else if s[0] == 't' then Some((true, s[1..]))
    else if s[0] == 'f' then Some((false, s[1..]))
    else None
  }

  /** `JSON.parse` of the slot text: `None` for text that is not a whole encoded entry. */
  function Decode(s: string): Option<LocalEntry> {
    var id :- DecodeText(s);
    var swapIn :- DecodeInstant(id.1);
    var swapOut :- DecodeInstant(swapIn.1);
    var synced :- DecodeFlag(swapOut.1);
    var swapOutSynced :- DecodeFlag(synced.1);
    if swapOutSynced.1 == [] then
      Some(LocalEntry(id.0, swapIn.0, swapOut.0, synced.0, swapOutSynced.0))
    else None
  }

  /**
   * `loadLocalEntry` on the slot's raw content: a missing or empty item and
   * text that does not decode both load as nothing.
   */
  function Load(raw: Option<string>): (r: Option<LocalEntry>)
    ensures raw.None? || raw == Some([]) ==> r.None?
    ensures r.Some? ==> raw.Some? && Decode(raw.value) == r
  {
    if raw.None? || raw.value == [] then None else Decode(raw.value)
  }

  // ----- round trip -----

  lemma {:induction false} DigitRunAppend(ds: string, rest: string)
    requires AllDigits(ds)
    ensures DigitRun(ds + rest) == |ds| + DigitRun(rest)
  {
    if ds == [] {
      assert ds + rest == rest;
    } else {
      assert (ds + rest)[0] == ds[0];
      assert (ds + rest)[1..] == ds[1..] + rest;
      DigitRunAppend(ds[1..], rest);
    }
  }

  lemma ParseNatAfterDigits(n: nat, rest: string)
    requires rest == [] || !IsDigit(rest[0])
    ensures ParseNat(NatToString(n) + rest) == Some((n, rest))
  {
    var ds := NatToString(n);
    DigitRunAppend(ds, rest);
    assert DigitRun(rest) == 0;
    assert (ds + rest)[..|ds|] == ds;
    assert (ds + rest)[|ds|..] == rest;
    NatToStringValue(n);
  }

  lemma DecodeTextRoundTrip(o: Option<string>, rest: string)
    ensures DecodeText(EncodeText(o) + rest) == Some((o, rest))
  {
    var s := EncodeText(o) + rest;
    match o
    case None =>
      assert s[1..] == rest;
    case Some(t) =>
      var tail := ":" + t + rest;
      assert s == "s" + (NatToString(|t|) + tail);
      assert s[1..] == NatToString(|t|) + tail;
      ParseNatAfterDigits(|t|, tail);
      assert ParseNat(s[1..]) == Some((|t|, tail));
      assert tail[1..1 + |t|] == t;
      assert tail[1 + |t|..] == rest;
  }

  /** A sign, a run of digits and `;` decode to the signed value they spell. */
  lemma DecodeSignedRoundTrip(c: char, n: nat, rest: string)
    requires c == '+' || c == '-'
    ensures DecodeInstant([c] + (NatToString(n) + (";" + rest)))
         == Some((Some(if c == '-' then -(n as int) else n), rest))
  {
    var tail := ";" + rest;
    var s := [c] + (NatToString(n) + tail);
    assert s[0] == c;
    assert s[1..] == NatToString(n) + tail;
    ParseNatAfterDigits(n, tail);
    assert tail[1..] == rest;
  }

  lemma DecodeInstantRoundTrip(o: Option<Instant>, rest: string)
    ensures DecodeInstant(EncodeInstant(o) + rest) == Some((o, rest))
  {
    match o
    case None =>
      assert (EncodeInstant(o) + rest)[1..] == rest;
    case Some(t) =>
      var c := if t < 0 then '-' else '+';
      var n: nat := if t < 0 then -t else t;
      var ds := NatToString(n);
      assert EncodeInstant(o) == [c] + ds + ";";
      assert EncodeInstant(o) + rest == [c] + (ds + (";" + rest));
      DecodeSignedRoundTrip(c, n, rest);
  }

  lemma DecodeFlagRoundTrip(b: bool, rest: string)
    ensures DecodeFlag(EncodeFlag(b) + rest) == Some((b, rest))
  {
    assert (EncodeFlag(b) + rest)[1..] == rest;
  }

  /** Decoding what was encoded gives the entry back. */
  lemma DecodeEncode(e: LocalEntry)
    ensures Decode(Encode(e)) == Some(e)
  {
    var f5 := EncodeFlag(e.swapOutSynced);
    var f4 := EncodeFlag(e.synced) + f5;
    var f3 := EncodeInstant(e.swapOut) + f4;
    var f2 := EncodeInstant(e.swapIn) + f3;
    assert Encode(e) == EncodeText(e.id) + f2;
    DecodeTextRoundTrip(e.id, f2);
    DecodeInstantRoundTrip(e.swapIn, f3);
    DecodeInstantRoundTrip(e.swapOut, f4);
    DecodeFlagRoundTrip(e.synced, f5);
    DecodeFlagRoundTrip(e.swapOutSynced, []);
    assert f5 + [] == f5;
    assert DecodeText(Encode(e)) == Some((e.id, f2));
    assert DecodeInstant(f2) == Some((e.swapIn, f3));
    assert DecodeInstant(f3) == Some((e.swapOut, f4));
    assert DecodeFlag(f4) == Some((e.synced, f5));
    assert DecodeFlag(f5) == Some((e.swapOutSynced, []));
  }

  /** After `saveLocalEntry(e)`, `loadLocalEntry()` returns `e`. */
  lemma LoadAfterSave(e: LocalEntry)
    ensures Load(Some(Encode(e))) == Some(e)
  {
    DecodeEncode(e);
  }

  /** Any stored text that does not decode loads as nothing, instead of failing. */
  lemma LoadCorrupt(raw: string)
    requires Decode(raw).None?
    ensures Load(Some(raw)).None?
  {
  }

  /** For example, a bare JSON brace loads as nothing. */
  lemma LoadBrace()
    ensures Load(Some("{")).None?
  {
    LoadCorrupt("{");
  }
}
