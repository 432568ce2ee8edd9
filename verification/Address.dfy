/** utils/stream_protocol.py: the textual frame addresses `channel/sequence|name`. */
module Addresses {
  import opened Common

  const DATA_CHANNEL := "data"

  datatype FrameAddress = FrameAddress(channel: string, sequence: Option<int>, name: string)

  // ---- Python's `str` and `int` on integers ----

  type DigitValue = d: int | 0 <= d < 10

  /** What `str` and `int` depend on besides their argument: which characters beyond ASCII are decimal
      digits or white space, and how many digits are converted at most, 0 for any number. */
  datatype Python = Python(digit: char -> Option<DigitValue>, space: char -> bool, maxDigits: nat)

  function Digit(d: nat): char
    requires d < 10
  {
    '0' + d as char
  }

  predicate IsDigit(c: char) {
    '0' <= c <= '9'
  }

  predicate IsSpace(c: char) {
    c == ' ' || '\t' <= c <= '\r'
  }

  function Numeral(n: nat): (s: string)
    ensures s != "" && forall c :: c in s ==> IsDigit(c)
  {
    if n < 10 then [Digit(n)] else Numeral(n / 10) + [Digit(n % 10)]
  }

  /** `str(n)`. */
  function Decimal(n: int): string {
    if n < 0 then "-" + Numeral(-n) else Numeral(n)
  }

  /** Digits, with single underscores between them. */
  function ParseDigits(s: string): Option<nat>
    decreases |s|
  {
    if s == "" || !IsDigit(s[|s| - 1]) then None
    else
      var last := s[|s| - 1] as int - '0' as int;
      var front := s[..|s| - 1];
      if front == "" then Some(last)
      else
        match ParseDigits(if front[|front| - 1] == '_' then front[..|front| - 1] else front)
        case None => None
        case Some(n) => Some(10 * n + last)
  }

  function StripLeft(s: string): string {
    if s != "" && IsSpace(s[0]) then StripLeft(s[1..]) else s
  }

  function StripRight(s: string): string {
    if s != "" && IsSpace(s[|s| - 1]) then StripRight(s[..|s| - 1]) else s
  }

  /** The ASCII character that `int` reads for `c`; `?` is one that it does not accept. */
  function Plain(py: Python, c: char): char {
    if c as int < 127 then c
    else if py.space(c) then ' '
    else if py.digit(c).Some? then Digit(py.digit(c).value)
    else '?'
  }

  function PlainText(py: Python, s: string): (r: string)
    ensures |r| == |s|
  {
    seq(|s|, i requires 0 <= i < |s| => Plain(py, s[i]))
  }

  function DigitCount(s: string): nat {
    if s == "" then 0 else DigitCount(s[1..]) + if IsDigit(s[0]) then 1 else 0
  }

  predicate WithinLimit(py: Python, digits: nat) {
    py.maxDigits == 0 || digits <= py.maxDigits
  }

  function WithoutSign(s: string): string {
    if s != "" && (s[0] == '+' || s[0] == '-') then s[1..] else s
  }

  /** `int(s)`, with None for its ValueError. */
  function ParseInt(py: Python, s: string): Option<int> {
    var t := StripRight(StripLeft(PlainText(py, s)));
    if !WithinLimit(py, DigitCount(WithoutSign(t))) then None
    else
      match ParseDigits(WithoutSign(t))
      case None => None
      case Some(n) =>
        var value: int := n;
        Some(if t[0] == '-' then -value else value)
  }

  /** `str(n)` does not raise. */
  predicate Printable(py: Python, n: int) {
    WithinLimit(py, |Numeral(if n < 0 then -n else n)|)
  }

  lemma {:induction false} NumeralIsRead(n: nat)
    ensures ParseDigits(Numeral(n)) == Some(n)
  {
    if n >= 10 {
      NumeralIsRead(n / 10);
      var s, front := Numeral(n), Numeral(n / 10);
      assert s[..|s| - 1] == front;
      assert front[|front| - 1] in front;
    }
  }

  lemma NothingToStrip(s: string)
    requires s != "" && !IsSpace(s[0]) && !IsSpace(s[|s| - 1])
    ensures StripRight(StripLeft(s)) == s
  {
  }

  lemma DecimalEnds(n: int)
    ensures var s := Decimal(n);
            var digits := Numeral(if n < 0 then -n else n);
            && s == (if n < 0 then "-" else "") + digits
            && IsDigit(digits[0]) && IsDigit(digits[|digits| - 1]) && '|' !in s
  {
    var digits := Numeral(if n < 0 then -n else n);
    assert digits[0] in digits && digits[|digits| - 1] in digits;
    hide Numeral;
  }

  lemma {:induction false} AllDigits(s: string)
    requires forall c :: c in s ==> IsDigit(c)
    ensures DigitCount(s) == |s|
  {
    if s != "" {
      assert s[0] in s;
      AllDigits(s[1..]);
    }
  }

  lemma PlainDecimal(py: Python, n: int)
    ensures PlainText(py, Decimal(n)) == Decimal(n)
  {
    var s := Decimal(n);
    forall i | 0 <= i < |s| ensures Plain(py, s[i]) == s[i] {
      assert s[i] in s;
    }
  }

  lemma ParsedInParts(py: Python, s: string, digits: string, n: nat)
    requires s != "" && PlainText(py, s) == s && StripRight(StripLeft(s)) == s && WithoutSign(s) == digits
    requires WithinLimit(py, DigitCount(digits)) && ParseDigits(digits) == Some(n)
    ensures var value: int := n; ParseInt(py, s) == Some(if s[0] == '-' then -value else value)
  {
    hide PlainText, StripLeft, StripRight, WithoutSign, DigitCount, ParseDigits, WithinLimit;
  }

  lemma NothingToStripFrom(n: int)
    ensures var s := Decimal(n);
            s != "" && StripRight(StripLeft(s)) == s
            && WithoutSign(s) == Numeral(if n < 0 then -n else n) && (s[0] == '-' <==> n < 0)
  {
    var digits := Numeral(if n < 0 then -n else n);
    var s := Decimal(n);
    DecimalEnds(n);
    assert s[|s| - 1] == digits[|digits| - 1];
    NothingToStrip(s);
    hide Numeral, StripLeft, StripRight;
  }

  /** `int` reads back what `str` writes. */
  lemma DecimalIsRead(py: Python, n: int)
    requires Printable(py, n)
    ensures ParseInt(py, Decimal(n)) == Some(n)
  {
    hide ParseInt, ParseDigits, StripLeft, StripRight, Decimal, WithoutSign, DigitCount, PlainText, WithinLimit;
    var digits := Numeral(if n < 0 then -n else n);
    NumeralIsRead(if n < 0 then -n else n);
    AllDigits(digits);
    hide Numeral;
    PlainDecimal(py, n);
    NothingToStripFrom(n);
    ParsedInParts(py, Decimal(n), digits, if n < 0 then -n else n);
  }

  // ---- What `int` reads ----

  /** Decimal digits with single underscores between them. */
  ghost predicate IsNumber(s: string) {
    && s != "" && IsDigit(s[0]) && IsDigit(s[|s| - 1])
    && (forall i :: 0 <= i < |s| ==> IsDigit(s[i]) || s[i] == '_')
    && (forall i, j :: 0 <= i < j < |s| && j == i + 1 ==> s[i] != '_' || s[j] != '_')
  }

  /** `value`, with the digits of `s` behind it. */
  function Continued(value: nat, s: string): nat
    decreases |s|
  {
    if s == "" then value
    else Continued(if IsDigit(s[0]) then 10 * value + (s[0] as int - '0' as int) else value, s[1..])
  }

  lemma {:induction false} ContinuedWith(value: nat, s: string, c: char)
    ensures Continued(value, s + [c]) ==
              if IsDigit(c) then 10 * Continued(value, s) + (c as int - '0' as int) else Continued(value, s)
    decreases |s|
  {
    if s == "" {
      assert s + [c] == [c];
    } else {
      assert (s + [c])[1..] == s[1..] + [c];
      ContinuedWith(if IsDigit(s[0]) then 10 * value + (s[0] as int - '0' as int) else value, s[1..], c);
    }
  }

  /** A number with one more digit, and perhaps an underscore in front of it. */
  lemma NumberMore(s: string)
    requires |s| > 1 && IsDigit(s[|s| - 1])
    ensures var front := s[..|s| - 1];
            var rest := if front[|front| - 1] == '_' then front[..|front| - 1] else front;
            && (IsNumber(s) <==> IsNumber(rest))
            && Continued(0, s) == 10 * Continued(0, rest) + (s[|s| - 1] as int - '0' as int)
  {
    var front := s[..|s| - 1];
    var last := s[|s| - 1];
    assert s == front + [last];
    ContinuedWith(0, front, last);
    if front[|front| - 1] == '_' {
      var rest := front[..|front| - 1];
      assert front == rest + ['_'];
      ContinuedWith(0, rest, '_');
      NumberUnderscore(rest, last);
      assert s == rest + "_" + [last];
    } else {
      NumberDigit(front, last);
    }
  }

  lemma NumberDigit(front: string, last: char)
    requires front != "" && front[|front| - 1] != '_' && IsDigit(last)
    ensures IsNumber(front + [last]) <==> IsNumber(front)
  {
    var s := front + [last];
    assert forall i :: 0 <= i < |front| ==> s[i] == front[i];
    if IsNumber(s) {
      assert s[|front| - 1] == front[|front| - 1];
    }
  }

  lemma NumberUnderscore(rest: string, last: char)
    requires IsDigit(last)
    ensures IsNumber(rest + "_" + [last]) <==> IsNumber(rest)
  {
    var s := rest + "_" + [last];
    assert forall i :: 0 <= i < |rest| ==> s[i] == rest[i];
    assert s[|rest|] == '_' && s[|rest| + 1] == last;
    if IsNumber(s) {
      assert rest != "" by { assert s[0] != '_'; }
      assert s[|rest| - 1] != '_';
    }
  }

  /** Exactly the numbers are read, from left to right. */
  lemma {:induction false} DigitsIff(s: string)
    ensures ParseDigits(s) == if IsNumber(s) then Some(Continued(0, s)) else None
    decreases |s|
  {
    if |s| == 1 {
      assert s[1..] == "";
    } else if s != "" && IsDigit(s[|s| - 1]) {
      var front := s[..|s| - 1];
      NumberMore(s);
      hide IsNumber, Continued;
      DigitsIff(if front[|front| - 1] == '_' then front[..|front| - 1] else front);
    }
  }

  predicate AllSpace(s: string) {
    forall i :: 0 <= i < |s| ==> IsSpace(s[i])
  }

  lemma {:induction false} StripLeftSpaces(left: string, rest: string)
    requires AllSpace(left) && (rest == "" || !IsSpace(rest[0]))
    ensures StripLeft(left + rest) == rest
  {
    if left == "" {
      assert left + rest == rest;
    } else {
      assert (left + rest)[0] == left[0] && (left + rest)[1..] == left[1..] + rest;
      StripLeftSpaces(left[1..], rest);
    }
  }

  lemma {:induction false} StripRightSpaces(rest: string, right: string)
    requires AllSpace(right) && (rest == "" || !IsSpace(rest[|rest| - 1]))
    ensures StripRight(rest + right) == rest
  {
    if right == "" {
      assert rest + right == rest;
    } else {
      var n := |right| - 1;
      assert (rest + right)[|rest| + n] == right[n] && (rest + right)[..|rest| + n] == rest + right[..n];
      StripRightSpaces(rest, right[..n]);
    }
  }

  lemma {:induction false} StripLeftParts(s: string) returns (left: string)
    ensures AllSpace(left) && s == left + StripLeft(s)
  {
    if s != "" && IsSpace(s[0]) {
      var more := StripLeftParts(s[1..]);
      left := [s[0]] + more;
      assert s == [s[0]] + s[1..] == left + StripLeft(s[1..]);
    } else {
      left := "";
    }
  }

  lemma {:induction false} StripRightParts(s: string) returns (right: string)
    ensures AllSpace(right) && s == StripRight(s) + right
  {
    if s != "" && IsSpace(s[|s| - 1]) {
      var more := StripRightParts(s[..|s| - 1]);
      right := more + [s[|s| - 1]];
      assert s == s[..|s| - 1] + [s[|s| - 1]];
    } else {
      right := "";
    }
  }

  /** White space, a sign or none, a number with few enough digits, white space: what `int` reads. */
  ghost predicate IsInteger(py: Python, t: string, left: string, sign: string, number: string, right: string) {
    && t == left + sign + number + right && AllSpace(left) && AllSpace(right)
    && (sign == "" || sign == "+" || sign == "-")
    && IsNumber(number) && WithinLimit(py, DigitCount(number))
  }

  function Signed(sign: string, n: nat): int {
    var value: int := n;
    if sign == "-" then -value else value
  }

  lemma IntegerIsRead(py: Python, s: string, left: string, sign: string, number: string, right: string)
    requires IsInteger(py, PlainText(py, s), left, sign, number, right)
    ensures ParseInt(py, s) == Some(Signed(sign, Continued(0, number)))
  {
    var core := sign + number;
    assert PlainText(py, s) == left + (core + right);
    assert core[|core| - 1] == number[|number| - 1] && !IsSpace(core[0]);
    assert (core + right)[0] == core[0];
    StripLeftSpaces(left, core + right);
    StripRightSpaces(core, right);
    assert WithoutSign(core) == number;
    DigitsIff(number);
    hide IsNumber, Continued, DigitCount, ParseDigits, StripLeft, StripRight, PlainText;
  }

  lemma IntegerWasWritten(py: Python, s: string) returns (left: string, sign: string, number: string, right: string)
    requires ParseInt(py, s).Some?
    ensures IsInteger(py, PlainText(py, s), left, sign, number, right)
  {
    hide IsNumber, Continued, DigitCount, ParseDigits, StripLeft, StripRight, PlainText, AllSpace, WithinLimit;
    var t := PlainText(py, s);
    left := StripLeftParts(t);
    right := StripRightParts(StripLeft(t));
    var core := StripRight(StripLeft(t));
    number := WithoutSign(core);
    sign := SignOf(core);
    assert left + (core + right) == left + sign + number + right;
    DigitsIff(number);
  }

  lemma SignOf(core: string) returns (sign: string)
    ensures core == sign + WithoutSign(core) && (sign == "" || sign == "+" || sign == "-")
  {
    sign := core[..|core| - |WithoutSign(core)|];
  }

  /** Exactly such texts are integers. */
  lemma IsReadIff(py: Python, s: string)
    ensures ParseInt(py, s).Some? <==>
            exists left, sign, number, right :: IsInteger(py, PlainText(py, s), left, sign, number, right)
  {
    if ParseInt(py, s).Some? {
      var left, sign, number, right := IntegerWasWritten(py, s);
    }
    hide IsInteger, ParseInt, PlainText;
    if left, sign, number, right :| IsInteger(py, PlainText(py, s), left, sign, number, right) {
      IntegerIsRead(py, s, left, sign, number, right);
    }
  }

  // ---- Addresses ----

  function ChannelOf(channel: string): string {
    if channel == "" then DATA_CHANNEL else channel
  }

  function Joined(channel: string, token: string): string {
    if token == "" then ChannelOf(channel) else ChannelOf(channel) + "/" + token
  }

  /** None is the ValueError of a sequence with more digits than are converted. */
  function Encode(py: Python, sequence: Option<int>, name: string, channel: string): Option<string> {
    if sequence == None then Some(Joined(channel, name))
    else if !Printable(py, sequence.value) then None
    else Some(Joined(channel, Decimal(sequence.value) + "|" + name))
  }

  function Decode(py: Python, raw: string): FrameAddress {
    if raw == "" then FrameAddress(DATA_CHANNEL, None, "")
    else
      var slash := IndexOf(raw, '/');
      if slash == -1 then DecodeToken(py, DATA_CHANNEL, raw)
      else DecodeToken(py, ChannelOf(raw[..slash]), raw[slash + 1..])
  }

  function DecodeToken(py: Python, channel: string, token: string): FrameAddress {
    if LooksNumbered(py, token) then
      FrameAddress(channel, ParseInt(py, token[..IndexOf(token, '|')]), token[IndexOf(token, '|') + 1..])
    else
      FrameAddress(channel, None, token)
  }

  /** The text before the first `|` is an integer. */
  predicate LooksNumbered(py: Python, token: string) {
    '|' in token && ParseInt(py, token[..IndexOf(token, '|')]).Some?
  }

  /** What comes before the first `/` and after it. */
  lemma DecodeSplits(py: Python, channel: string, token: string)
    requires '/' !in channel && channel != ""
    ensures Decode(py, channel + "/" + token) == DecodeToken(py, channel, token)
  {
    hide DecodeToken, IndexOf;
    var raw := channel + "/" + token;
    IndexOfFirst(channel, '/', token);
    assert raw[..|channel|] == channel && raw[|channel| + 1..] == token;
  }

  lemma NumberedToken(py: Python, channel: string, n: int, name: string)
    requires Printable(py, n)
    ensures DecodeToken(py, channel, Decimal(n) + "|" + name) == FrameAddress(channel, Some(n), name)
  {
    var token := Decimal(n) + "|" + name;
    DecimalIsRead(py, n);
    DecimalEnds(n);
    IndexOfFirst(Decimal(n), '|', name);
    hide ParseInt, Decimal, IndexOf, Numeral;
    assert token[|Decimal(n)|] == '|';
    assert token[..|Decimal(n)|] == Decimal(n) && token[|Decimal(n)| + 1..] == name;
  }

  lemma TokenKeepsChannel(py: Python, channel: string, token: string)
    ensures DecodeToken(py, channel, token).channel == channel
    ensures DecodeToken(py, channel, token).sequence.Some? <==> LooksNumbered(py, token)
    ensures !LooksNumbered(py, token) ==> DecodeToken(py, channel, token).name == token
  {
    hide ParseInt, IndexOf;
  }

  /** No decoded channel contains a slash. */
  lemma DecodedChannelHasNoSlash(py: Python, raw: string)
    ensures '/' !in Decode(py, raw).channel
  {
    hide DecodeToken, IndexOf;
    var slash := IndexOf(raw, '/');
    if raw != "" {
      TokenKeepsChannel(py, DATA_CHANNEL, raw);
      if slash != -1 {
        TokenKeepsChannel(py, ChannelOf(raw[..slash]), raw[slash + 1..]);
      }
    }
  }

  /** Whatever the digits and spaces beyond ASCII and the limit on digits: encoding raises only for a
      sequence with too many digits; and decoding undoes encoding, for every channel without `/`, when
      there is a sequence or a name whose text before its first `|` is not an integer -- and in no
      other case. */
  lemma RoundTripIff(py: Python, sequence: Option<int>, name: string, channel: string)
    ensures Encode(py, sequence, name, channel) == None <==> sequence.Some? && !Printable(py, sequence.value)
    ensures Encode(py, sequence, name, channel).Some? ==>
              (Decode(py, Encode(py, sequence, name, channel).value)
                 == FrameAddress(ChannelOf(channel), sequence, name)
               <==> '/' !in channel && (sequence.Some? || (name != "" && !LooksNumbered(py, name))))
  {
    hide ParseInt, Decimal, LooksNumbered, DecodeToken, Printable, IndexOf;
    var ch := ChannelOf(channel);
    var encoded := Encode(py, sequence, name, channel);
    if encoded.Some? {
      if '/' in channel {
        DecodedChannelHasNoSlash(py, encoded.value);
      } else if sequence.Some? {
        DecodeSplits(py, ch, Decimal(sequence.value) + "|" + name);
        NumberedToken(py, ch, sequence.value, name);
      } else if name != "" {
        DecodeSplits(py, ch, name);
        TokenKeepsChannel(py, ch, name);
      } else {
        TokenKeepsChannel(py, DATA_CHANNEL, ch);
      }
    }
  }

  /** Where nothing is given, the channel is "data". */
  lemma Defaults(py: Python)
    ensures Decode(py, "") == FrameAddress("data", None, "")
    ensures Encode(py, None, "", "") == Some("data")
    ensures Encode(py, None, "a", "") == Some("data/a")
    ensures forall raw :: raw != "" && '/' !in raw ==> Decode(py, raw).channel == "data"
  {
    assert Joined("", "a") == "data/a";
    hide LooksNumbered, ParseInt;
  }

  /** So a name that begins like a numbered address, sent without a sequence, is mistaken for one. */
  lemma NumberedNameIsMistaken(py: Python, n: int, rest: string, channel: string)
    requires Printable(py, n) && '/' !in channel
    ensures Encode(py, None, Decimal(n) + "|" + rest, channel).Some?
    ensures Decode(py, Encode(py, None, Decimal(n) + "|" + rest, channel).value)
         == FrameAddress(ChannelOf(channel), Some(n), rest)
  {
    hide Decimal, DecodeToken, Decode, Printable;
    DecodeSplits(py, ChannelOf(channel), Decimal(n) + "|" + rest);
    NumberedToken(py, ChannelOf(channel), n, rest);
  }

  /** The same with digits beyond ASCII. */
  lemma OtherDigitsCount(py: Python, c: char, d: DigitValue, rest: string)
    requires c as int >= 127 && !py.space(c) && py.digit(c) == Some(d)
    ensures LooksNumbered(py, [c] + "|" + rest)
  {
    var token := [c] + "|" + rest;
    IndexOfFirst([c], '|', rest);
    assert token[1] == '|' && token[..1] == [c];
    var plain := PlainText(py, [c]);
    assert plain == [Digit(d)];
    NothingToStrip(plain);
    assert DigitCount(plain) == 1 by { assert plain[1..] == ""; }
    assert ParseDigits(plain).Some? by { assert plain[..|plain| - 1] == ""; }
    hide IndexOf, StripLeft, StripRight, PlainText, DigitCount, ParseDigits;
  }
}
