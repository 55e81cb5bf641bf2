/**
 * The callback-data wire format of the confirmation prompt: a button carries
 * `send_<id>` or `cancel_<id>`, where `<id>` is the decimal message id of the
 * draft.  The bot routes a pressed button by the patterns `^send_(\d+)$` and
 * `^cancel_(\d+)$` and turns the captured digits into a number with parseInt.
 */
module CallbackData {
  import opened Wrappers

  /** The two decisions a prompt button can carry. */
  datatype Kind = Send | Cancel

  /** A decoded payload: the decision and the id of the draft it refers to. */
  datatype Callback = Callback(kind: Kind, id: nat)

  function Prefix(k: Kind): string {
    match k
    case Send => "send_"
    case Cancel => "cancel_"
  }

  /** `\d` of a JavaScript pattern without the unicode flag: ASCII digits only. */
  predicate IsDigit(c: char) {
    '0' <= c <= '9'
  }

  predicate AllDigits(s: string) {
    forall i | 0 <= i < |s| :: IsDigit(s[i])
  }

  /** The way a number prints in a template literal: no leading zero unless the number is 0. */
  predicate Canonical(s: string) {
    |s| > 0 && AllDigits(s) && (s[0] == '0' ==> |s| == 1)
  }

  function DigitChar(d: nat): (c: char)
    requires d < 10
    ensures IsDigit(c) && (c == '0' <==> d == 0)
  {
    (d + '0' as int) as char
  }

  function DigitValue(c: char): (d: nat)
    requires IsDigit(c)
    ensures d < 10 && DigitChar(d) == c
  {
    c as int - '0' as int
  }

  /** Decimal rendering of a natural number, as `${n}` produces it. */
  function Digits(n: nat): (s: string)
    ensures Canonical(s)
    ensures n > 0 ==> s[0] != '0'
    decreases n
  {
    if n < 10 then [DigitChar(n)] else Digits(n / 10) + [DigitChar(n % 10)]
  }

  /** parseInt of a string of decimal digits. */
  function Value(s: string): nat
    requires AllDigits(s)
  {
    if s == [] then 0 else Value(s[..|s| - 1]) * 10 + DigitValue(s[|s| - 1])
  }

  /** The button payload for decision `k` on draft `id`. */
  function Encode(k: Kind, id: nat): string {
    Prefix(k) + Digits(id)
  }

  /** Matches `^<prefix>(\d+)$` and parses the captured digits, or yields None. */
  function Match(s: string, k: Kind): Option<nat> {
    var p := Prefix(k);
    if |p| < |s| && s[..|p|] == p && AllDigits(s[|p|..]) then Some(Value(s[|p|..])) else None
  }

  /** Routes a payload to the handler whose pattern it matches; None when neither matches. */
  function Decode(s: string): Option<Callback> {
    match Match(s, Send)
    case Some(n) => Some(Callback(Send, n))
    case None =>
      match Match(s, Cancel)
      case Some(n) => Some(Callback(Cancel, n))
      case None => None
  }

  lemma {:induction false} ValueOfDigits(n: nat)
    ensures Value(Digits(n)) == n
    decreases n
  {
    var s := Digits(n);
    if n >= 10 {
      ValueOfDigits(n / 10);
      assert s[..|s| - 1] == Digits(n / 10);
    }
  }

  lemma {:induction false} LeadingDigitPositive(s: string)
    requires |s| > 0 && AllDigits(s) && s[0] != '0'
    ensures Value(s) >= 1
    decreases |s|
  {
    if |s| > 1 {
      LeadingDigitPositive(s[..|s| - 1]);
    }
  }

  lemma {:induction false} DigitsOfValue(s: string)
    requires Canonical(s)
    ensures Digits(Value(s)) == s
    decreases |s|
  {
    if |s| > 1 {
      var p := s[..|s| - 1];
      LeadingDigitPositive(p);
      DigitsOfValue(p);
      var d := DigitValue(s[|s| - 1]);
      assert Value(s) / 10 == Value(p) && Value(s) % 10 == d;
      assert s == p + [s[|s| - 1]];
    }
  }

  /** Every payload the prompt emits routes back to the same decision and the same draft. */
  lemma DecodeEncode(k: Kind, id: nat)
    ensures Decode(Encode(k, id)) == Some(Callback(k, id))
  {
    ValueOfDigits(id);
    MatchPrefixed(k, Digits(id));
    if k == Cancel {
      CancelNeverMatchesSend(Digits(id));
    }
  }

  /** A payload that was decoded and whose digits carry no leading zero is exactly what the prompt emits. */
  lemma EncodeDecode(s: string, c: Callback)
    requires Decode(s) == Some(c)
    requires Canonical(s[|Prefix(c.kind)|..])
    ensures Encode(c.kind, c.id) == s
  {
    var p := Prefix(c.kind);
    assert Match(s, c.kind) == Some(c.id);
    DigitsOfValue(s[|p|..]);
    assert s == s[..|p|] + s[|p|..];
  }

  /** `z` copies of the digit '0'. */
  function Zeros(z: nat): string {
    if z == 0 then [] else ['0'] + Zeros(z - 1)
  }

  lemma {:induction false} ZerosValue(z: nat)
    ensures AllDigits(Zeros(z)) && Value(Zeros(z)) == 0
    decreases z
  {
    if z > 0 {
      ZerosTail(z);
      ZerosValue(z - 1);
      var s := Zeros(z);
      assert s[..|s| - 1] == Zeros(z - 1) && s[|s| - 1] == '0';
    }
  }

  /** Zeros(z) is also Zeros(z - 1) followed by one more '0'. */
  lemma {:induction false} ZerosTail(z: nat)
    requires z > 0
    ensures Zeros(z) == Zeros(z - 1) + ['0']
    decreases z
  {
    if z > 1 {
      ZerosTail(z - 1);
    }
  }

  /** Leading zeros do not change the value parseInt gives a digit string. */
  lemma {:induction false} LeadingZerosIgnored(z: nat, d: string)
    requires AllDigits(d)
    ensures AllDigits(Zeros(z) + d) && Value(Zeros(z) + d) == Value(d)
    decreases |d|
  {
    ZerosValue(z);
    var s := Zeros(z) + d;
    if d == [] {
      assert s == Zeros(z);
    } else {
      LeadingZerosIgnored(z, d[..|d| - 1]);
      assert s[..|s| - 1] == Zeros(z) + d[..|d| - 1];
    }
  }

  /** Every non-empty digit string is some zeros followed by a canonical digit string. */
  lemma {:induction false} SplitLeadingZeros(d: string) returns (z: nat, c: string)
    requires |d| > 0 && AllDigits(d)
    ensures d == Zeros(z) + c && Canonical(c)
    decreases |d|
  {
    if d[0] != '0' || |d| == 1 {
      z, c := 0, d;
    } else {
      var z', c' := SplitLeadingZeros(d[1..]);
      z, c := z' + 1, c';
      assert d == ['0'] + d[1..];
    }
  }

  /** A prefix followed by a non-empty digit string matches that prefix's pattern. */
  lemma MatchPrefixed(k: Kind, d: string)
    requires |d| > 0 && AllDigits(d)
    ensures Match(Prefix(k) + d, k) == Some(Value(d))
  {
    var s := Prefix(k) + d;
    assert s[..|Prefix(k)|] == Prefix(k) && s[|Prefix(k)|..] == d;
  }

  /** A payload starting with `cancel_` never matches the `send_` pattern. */
  lemma CancelNeverMatchesSend(d: string)
    ensures Match(Prefix(Cancel) + d, Send) == None
  {
    var s := Prefix(Cancel) + d;
    assert s[0] == 'c';
  }

  /** What a successful decode tells about the payload: the prefix of its kind, then digits worth its id. */
  lemma DecodedShape(s: string, cb: Callback)
    requires Decode(s) == Some(cb)
    ensures |Prefix(cb.kind)| < |s| && s == Prefix(cb.kind) + s[|Prefix(cb.kind)|..]
    ensures AllDigits(s[|Prefix(cb.kind)|..]) && Value(s[|Prefix(cb.kind)|..]) == cb.id
  {
    assert Match(s, cb.kind) == Some(cb.id);
  }

  lemma DecodedIsPaddedEncoding(s: string, cb: Callback) returns (z: nat)
    requires Decode(s) == Some(cb)
    ensures s == Prefix(cb.kind) + Zeros(z) + Digits(cb.id)
  {
    DecodedShape(s, cb);
    var d := s[|Prefix(cb.kind)|..];
    var c;
    z, c := SplitLeadingZeros(d);
    LeadingZerosIgnored(z, c);
    DigitsOfValue(c);
    assert Value(c) == cb.id;
    assert c == Digits(cb.id);
    assert s == Prefix(cb.kind) + (Zeros(z) + Digits(cb.id));
  }

  lemma PaddedEncodingDecodes(k: Kind, z: nat, id: nat)
    ensures Decode(Prefix(k) + Zeros(z) + Digits(id)) == Some(Callback(k, id))
  {
    var d := Zeros(z) + Digits(id);
    assert Prefix(k) + Zeros(z) + Digits(id) == Prefix(k) + d;
    LeadingZerosIgnored(z, Digits(id));
    ValueOfDigits(id);
    MatchPrefixed(k, d);
    if k == Cancel {
      CancelNeverMatchesSend(d);
    }
  }

  /**
   * The payloads the handlers accept are exactly the payloads the prompt
   * emits, with any number of extra leading zeros before the id.
   */
  lemma DecodeIffPaddedEncoding(s: string, cb: Callback)
    ensures Decode(s) == Some(cb) <==> exists z: nat :: s == Prefix(cb.kind) + Zeros(z) + Digits(cb.id)
  {
    if Decode(s) == Some(cb) {
      var z := DecodedIsPaddedEncoding(s, cb);
    }
    if exists z: nat :: s == Prefix(cb.kind) + Zeros(z) + Digits(cb.id) {
      var z: nat :| s == Prefix(cb.kind) + Zeros(z) + Digits(cb.id);
      PaddedEncodingDecodes(cb.kind, z, cb.id);
    }
  }

  /** After either prefix, an empty suffix or a suffix holding a non-digit matches neither handler. */
  lemma MalformedSuffixRejected(k: Kind, suffix: string)
    requires suffix == [] || exists i :: 0 <= i < |suffix| && !IsDigit(suffix[i])
    ensures Decode(Prefix(k) + suffix) == None
  {
    var s := Prefix(k) + suffix;
    assert s[..|Prefix(k)|] == Prefix(k) && s[|Prefix(k)|..] == suffix;
    var other := if k == Send then Cancel else Send;
    assert s[0] != Prefix(other)[0];
    assert Match(s, other) == None;
    assert Match(s, k) == None;
  }

  /** parseInt accepts leading zeros, so two payloads can name the same draft. */
  lemma LeadingZerosAccepted()
    ensures Decode("send_007") == Some(Callback(Send, 7))
    ensures Encode(Send, 7) == "send_7"
  {
    var s := "send_007";
    assert s[..5] == "send_" && s[5..] == "007";
    assert Value("007") == Value("00") * 10 + 7;
    assert Value("00") == Value("0") * 10 + 0;
    assert Value("0") == Value("") * 10 + 0;
  }
}
