/**
 * The vote dialog: the vote-count field, the total price shown, and the pay
 * button. Payment itself is simulated: a click starts a one-second timer that
 * reports the amount, closes the dialog and resets the form.
 *
 * The count field is read with JavaScript's `parseInt`, modelled here in full
 * for the radix-less call: leading white space, an optional sign, a `0x` prefix
 * switching to hexadecimal, then the longest run of digits. `NaN` is `None`.
 */
module VoteModal {
  import opened Options

  // ---------------------------------------------------------------------------
  // parseInt(value)

  /** The white space and line terminators `parseInt` skips: ECMAScript's StrWhiteSpaceChar. */
  predicate IsJsSpace(c: char) {
    || c == '\t' || c == '\n' || c == '\U{B}' || c == '\U{C}' || c == '\r' || c == ' '
    || c == '\U{A0}' || c == '\U{1680}' || ('\U{2000}' <= c <= '\U{200A}')
    || c == '\U{2028}' || c == '\U{2029}' || c == '\U{202F}' || c == '\U{205F}'
    || c == '\U{3000}' || c == '\U{FEFF}'
  }

  /** The value of `c` as a digit in base 10 or 16, if it is one. */
  function DigitValue(c: char, radix: nat): Option<nat> {
    if '0' <= c <= '9' then Some(c as nat - '0' as nat)
    else if radix == 16 && 'a' <= c <= 'f' then Some(c as nat - 'a' as nat + 10)
    else if radix == 16 && 'A' <= c <= 'F' then Some(c as nat - 'A' as nat + 10)
    else None
  }

  predicate AllDigits(ds: seq<char>, radix: nat) {
    forall k :: 0 <= k < |ds| ==> DigitValue(ds[k], radix).Some?
  }

  function TrimStart(s: string): (t: string)
    ensures t == [] || !IsJsSpace(t[0])
    ensures |t| <= |s|
    decreases |s|
  {
    if s != [] && IsJsSpace(s[0]) then TrimStart(s[1..]) else s
  }

  /** The longest prefix of `s` made of digits of `radix`. */
  function LeadingDigits(s: string, radix: nat): (ds: string)
    ensures AllDigits(ds, radix)
    ensures |ds| <= |s| && ds == s[..|ds|]
    ensures |ds| < |s| ==> DigitValue(s[|ds|], radix).None?
    decreases |s|
  {
    if s != [] && DigitValue(s[0], radix).Some? then [s[0]] + LeadingDigits(s[1..], radix) else []
  }

  /** The number a run of digits spells, most significant first. */
  function DigitsValue(ds: string, radix: nat): nat
    requires AllDigits(ds, radix)
    decreases |ds|
  {
    if ds == [] then 0
    else DigitsValue(ds[..|ds| - 1], radix) * radix + DigitValue(ds[|ds| - 1], radix).value
  }

  /** The sign in front of the digits, and what follows it. */
  function SplitSign(t: string): (int, string) {
    if t != [] && t[0] == '-' then (-1, t[1..])
    else if t != [] && t[0] == '+' then (1, t[1..])
    else (1, t)
  }

  /** With no radix given, a `0x` or `0X` prefix selects base 16; otherwise base 10. */
  function SplitRadix(u: string): (nat, string) {
    if |u| >= 2 && u[0] == '0' && (u[1] == 'x' || u[1] == 'X') then (16, u[2..]) else (10, u)
  }

  /** `parseInt(value)` with no radix; `None` stands for `NaN`, and `-0` is `Some(0)`. */
  function ParseInt(value: string): (r: Option<int>)
    ensures r.None? <==>
              var u := SplitSign(TrimStart(value)).1;
              LeadingDigits(SplitRadix(u).1, SplitRadix(u).0) == []
    ensures r.Some? ==> TrimStart(value) != []
    ensures r.Some? && TrimStart(value)[0] == '-' ==> r.value <= 0
    ensures r.Some? && r.value < 0 ==> TrimStart(value)[0] == '-'
  {
    var (sign, u) := SplitSign(TrimStart(value));
    var (radix, w) := SplitRadix(u);
    var z := LeadingDigits(w, radix);
    if z == [] then None else Some(sign * DigitsValue(z, radix))
  }

  /**
   * `handleVoteCountChange`: `Math.max(1, parseInt(value) || 1)`. `NaN` and zero
   * are falsy and become 1; a negative count is raised to 1.
   */
  function VoteCountFor(value: string): (n: int)
    ensures n >= 1
    ensures ParseInt(value).Some? && ParseInt(value).value >= 1 ==> n == ParseInt(value).value
    ensures ParseInt(value).None? || ParseInt(value).value <= 0 ==> n == 1
  {
    var parsed := ParseInt(value);
    var count := if parsed.None? || parsed.value == 0 then 1 else parsed.value;
    if count >= 1 then count else 1
  }

  // ---------------------------------------------------------------------------
  // The dialog

  /** What the simulated payment's timer closes over: `totalAmount` and `voteCount` at the click. */
  datatype Pending = Pending(amount: int, count: int)

  /**
   * The dialog's state, the timers that are set and not yet fired, the alerts
   * shown so far, and whether `onClose` has been called.
   */
  datatype Session = Session(voteCount: int, email: string, isLoading: bool,
                             timers: seq<Pending>, alerts: seq<Pending>, closed: bool)

  const Fresh: Session := Session(1, "", false, [], [], false)

  /** The quick-select buttons. */
  const QuickVotes: seq<int> := [1, 5, 10, 20, 50]

  /** `totalAmount`. */
  function Total(st: Session, votePrice: int): int {
    st.voteCount * votePrice
  }

  /** The pay button's `disabled` attribute. */
  predicate PayDisabled(st: Session) {
    st.email == "" || st.isLoading
  }

  /**
   * `handlePayment`: nothing without an email and a contestant; otherwise loading
   * starts and a timer is set holding the amount and count of this moment.
   */
  function HandlePayment(st: Session, hasContestant: bool, votePrice: int): (st': Session)
    ensures st.email == "" || !hasContestant ==> st' == st
    ensures st.email != "" && hasContestant ==>
              && st'.isLoading
              && st'.timers == st.timers + [Pending(Total(st, votePrice), st.voteCount)]
              && st' == st.(isLoading := true, timers := st'.timers)
  {
    if st.email == "" || !hasContestant then st
    else st.(isLoading := true, timers := st.timers + [Pending(Total(st, votePrice), st.voteCount)])
  }

  /** The oldest timer fires: alert, stop loading, close, and reset the count to 1 and the email to empty. */
  function TimerFires(st: Session): (st': Session)
    ensures st.timers == [] ==> st' == st
    ensures st.timers != [] ==>
              && st'.voteCount == 1 && st'.email == "" && !st'.isLoading && st'.closed
              && st'.alerts == st.alerts + [st.timers[0]]
              && st'.timers == st.timers[1..]
  {
    if st.timers == [] then st
    else Session(1, "", false, st.timers[1..], st.alerts + [st.timers[0]], true)
  }

  /** What the user or the runtime can do to the dialog. */
  datatype Event =
    | CountInput(value: string)
    | QuickSelect(index: nat)
    | EmailInput(value: string)
    | PayClick
    | Timeout

  /** The dialog's reaction to one event; the pay button only calls `handlePayment` when enabled. */
  function Step(st: Session, ev: Event, hasContestant: bool, votePrice: int): Session {
    match ev
    case CountInput(v) => st.(voteCount := VoteCountFor(v))
    case QuickSelect(i) => if i < |QuickVotes| then st.(voteCount := QuickVotes[i]) else st
    case EmailInput(v) => st.(email := v)
    case PayClick => if PayDisabled(st) then st else HandlePayment(st, hasContestant, votePrice)
    case Timeout => TimerFires(st)
  }

  function Steps(st: Session, evs: seq<Event>, hasContestant: bool, votePrice: int): Session
    decreases |evs|
  {
    if evs == [] then st else Steps(Step(st, evs[0], hasContestant, votePrice), evs[1..], hasContestant, votePrice)
  }

  /** The count is at least 1, and a payment is in progress exactly while its one timer is pending. */
  predicate Valid(st: Session) {
    && st.voteCount >= 1
    && |st.timers| <= 1
    && (st.isLoading <==> |st.timers| == 1)
  }

  // ---------------------------------------------------------------------------
  // Properties

  /** Every event keeps the dialog valid; in particular the count stays at least 1. */
  lemma StepValid(st: Session, ev: Event, hasContestant: bool, votePrice: int)
    requires Valid(st)
    ensures Valid(Step(st, ev, hasContestant, votePrice))
  {
  }

  /**
   * The dialog as it opens (`useState(1)`, `useState('')`, `useState(false)`) is
   * valid and shows the price of one vote, with the pay button disabled.
   */
  lemma FreshValid(votePrice: int)
    ensures Valid(Fresh)
    ensures Total(Fresh, votePrice) == votePrice
    ensures PayDisabled(Fresh)
  {
  }

  /**
   * From any valid state, any sequence of events leaves a valid state, so at most
   * one simulated payment is ever pending and the total is never below one vote's price.
   */
  lemma {:induction false} StepsValid(st: Session, evs: seq<Event>, hasContestant: bool, votePrice: int)
    requires Valid(st)
    ensures Valid(Steps(st, evs, hasContestant, votePrice))
    ensures votePrice >= 0 ==> Total(Steps(st, evs, hasContestant, votePrice), votePrice) >= votePrice
    decreases |evs|
  {
    if evs != [] {
      StepValid(st, evs[0], hasContestant, votePrice);
      StepsValid(Step(st, evs[0], hasContestant, votePrice), evs[1..], hasContestant, votePrice);
    } else {
      assert st.voteCount * votePrice == (st.voteCount - 1) * votePrice + votePrice;
    }
  }

  /** While a payment is in progress, or with no email, the pay button does nothing. */
  lemma DisabledPayIsInert(st: Session, hasContestant: bool, votePrice: int)
    requires st.isLoading || st.email == ""
    ensures Step(st, PayClick, hasContestant, votePrice) == st
  {
  }

  /**
   * The alert reports the amount and count of the moment of the click, even when
   * the count field changes while the payment is pending; afterwards the form is reset.
   */
  lemma AlertUsesClickTimeAmount(st: Session, value: string, votePrice: int)
    requires Valid(st)
    requires st.email != "" && !st.isLoading
    ensures var clicked := Step(st, PayClick, true, votePrice);
            var done := Step(Step(clicked, CountInput(value), true, votePrice), Timeout, true, votePrice);
            && done.alerts == st.alerts + [Pending(st.voteCount * votePrice, st.voteCount)]
            && done.voteCount == 1 && done.email == "" && !done.isLoading && done.closed
  {
  }

  /** A decimal numeral for a natural number, most significant digit first. */
  function DecimalString(n: nat): (s: string)
    ensures |s| >= 1
    ensures AllDigits(s, 10)
    ensures n >= 1 ==> s[0] != '0'
    decreases n
  {
    var d := ['0' + ((n % 10) as char)];
    if n < 10 then d else DecimalString(n / 10) + d
  }

  /** Reading a run of decimal digits back gives the number written. */
  lemma {:induction false} DecimalValue(n: nat)
    ensures DigitsValue(DecimalString(n), 10) == n
    decreases n
  {
    var s := DecimalString(n);
    if n >= 10 {
      DecimalValue(n / 10);
      assert s[..|s| - 1] == DecimalString(n / 10);
    }
  }

  /** The longest digit prefix of `ds + rest` is `ds` when `rest` does not go on with a digit. */
  lemma {:induction false} LeadingDigitsOf(ds: string, rest: string, radix: nat)
    requires AllDigits(ds, radix)
    requires rest == [] || DigitValue(rest[0], radix).None?
    ensures LeadingDigits(ds + rest, radix) == ds
    decreases |ds|
  {
    if ds == [] {
      assert ds + rest == rest;
    } else {
      assert (ds + rest)[1..] == ds[1..] + rest;
      LeadingDigitsOf(ds[1..], rest, radix);
      assert ds == [ds[0]] + ds[1..];
    }
  }

  /** A decimal numeral never starts with the `0x` prefix. */
  lemma DecimalIsNotHex(n: nat)
    ensures SplitRadix(DecimalString(n)) == (10, DecimalString(n))
  {
  }

  /**
   * The field's own rendering round-trips: typing the decimal numeral of a count
   * n >= 1, followed by anything that is not a digit (a fraction, an exponent),
   * sets the count to n.
   */
  lemma TypedCountRoundTrip(n: nat, rest: string)
    requires n >= 1
    requires rest == [] || !('0' <= rest[0] <= '9')
    ensures ParseInt(DecimalString(n) + rest) == Some(n)
    ensures VoteCountFor(DecimalString(n) + rest) == n
  {
    var ds := DecimalString(n);
    assert ds[0] != '0';
    assert "" + "" + ds + rest == ds + rest;
    LeadingIntegerPrefix("", "", ds, rest);
    DecimalValue(n);
  }

  /** Leading white space is skipped up to the first other character. */
  lemma {:induction false} TrimStartSpaces(ws: string, t: string)
    requires forall k :: 0 <= k < |ws| ==> IsJsSpace(ws[k])
    requires t == [] || !IsJsSpace(t[0])
    ensures TrimStart(ws + t) == t
    decreases |ws|
  {
    if ws == [] {
      assert ws + t == t;
    } else {
      assert (ws + t)[1..] == ws[1..] + t;
      TrimStartSpaces(ws[1..], t);
    }
  }

  /** The sign a sign text stands for: `""`, `"+"` or `"-"`. */
  function SignOf(sign: string): int {
    if sign == "-" then -1 else 1
  }

  /**
   * Any decimal integer prefix is read as written: white space, then an optional
   * sign, then a run of decimal digits (leading zeros allowed), then anything that
   * is not a digit. The count becomes that number when it is at least 1, and 1
   * otherwise. The one exception is a lone "0" followed by "x" or "X", which starts
   * a hexadecimal numeral instead.
   */
  lemma LeadingIntegerPrefix(ws: string, sign: string, ds: string, rest: string)
    requires forall k :: 0 <= k < |ws| ==> IsJsSpace(ws[k])
    requires sign == "" || sign == "+" || sign == "-"
    requires ds != [] && AllDigits(ds, 10)
    requires rest == [] || !('0' <= rest[0] <= '9')
    requires !(ds == "0" && rest != [] && (rest[0] == 'x' || rest[0] == 'X'))
    ensures ParseInt(ws + sign + ds + rest) == Some(SignOf(sign) * DigitsValue(ds, 10))
    ensures VoteCountFor(ws + sign + ds + rest) ==
              if SignOf(sign) * DigitsValue(ds, 10) >= 1 then DigitsValue(ds, 10) else 1
  {
    var t := sign + ds + rest;
    assert ws + sign + ds + rest == ws + t;
    assert t[0] == (if sign == "" then ds[0] else sign[0]);
    ParseAfterSpaces(ws, t);
    SignedDecimal(sign, ds, rest);
  }

  /** Leading white space does not change what `parseInt` reads. */
  lemma ParseAfterSpaces(ws: string, t: string)
    requires forall k :: 0 <= k < |ws| ==> IsJsSpace(ws[k])
    requires t == [] || !IsJsSpace(t[0])
    ensures ParseInt(ws + t) == ParseInt(t)
  {
    TrimStartSpaces(ws, t);
    assert TrimStart(t) == t;
  }

  /** The part of `LeadingIntegerPrefix` after the white space. */
  lemma SignedDecimal(sign: string, ds: string, rest: string)
    requires sign == "" || sign == "+" || sign == "-"
    requires ds != [] && AllDigits(ds, 10)
    requires rest == [] || !('0' <= rest[0] <= '9')
    requires !(ds == "0" && rest != [] && (rest[0] == 'x' || rest[0] == 'X'))
    ensures ParseInt(sign + ds + rest) == Some(SignOf(sign) * DigitsValue(ds, 10))
  {
    var u := ds + rest;
    var t := sign + u;
    assert sign + ds + rest == t;
    assert t[0] == (if sign == "" then ds[0] else sign[0]);
    assert TrimStart(t) == t;
    assert SplitSign(t) == (SignOf(sign), u) by {
      if sign == "" { assert t == u; } else { assert t[1..] == u; }
    }
    DecimalDigits(ds, rest);
  }

  /** A run of decimal digits that is not a lone "0" before "x" is read in base 10, up to its end. */
  lemma DecimalDigits(ds: string, rest: string)
    requires ds != [] && AllDigits(ds, 10)
    requires rest == [] || !('0' <= rest[0] <= '9')
    requires !(ds == "0" && rest != [] && (rest[0] == 'x' || rest[0] == 'X'))
    ensures SplitRadix(ds + rest) == (10, ds + rest)
    ensures LeadingDigits(ds + rest, 10) == ds
  {
    var u := ds + rest;
    if |ds| >= 2 {
      assert u[1] == ds[1];
    } else if rest != [] {
      assert u[1] == rest[0];
    }
    LeadingDigitsOf(ds, rest, 10);
  }

  /** Worked example: a leading zero, as a number field may hold, is read as decimal: "05" is 5. */
  lemma LeadingZeroExample()
    ensures VoteCountFor("05") == 5
  {
    assert DigitsValue("05", 10) == 5 by {
      assert "05"[..1] == "0" && "0"[..0] == [];
    }
    LeadingIntegerPrefix("", "", "05", "");
    assert "" + "" + "05" + "" == "05";
  }

  /** Typing a negative count sets the count to 1. */
  lemma NegativeCountIsOne(n: nat)
    requires n >= 1
    ensures ParseInt("-" + DecimalString(n)) == Some(-(n as int))
    ensures VoteCountFor("-" + DecimalString(n)) == 1
  {
    var ds := DecimalString(n);
    var s := "-" + ds;
    assert TrimStart(s) == s;
    assert SplitSign(s) == (-1, ds);
    DecimalIsNotHex(n);
    assert ds + [] == ds;
    LeadingDigitsOf(ds, [], 10);
    DecimalValue(n);
  }

  /** Worked example: an empty field and a field without digits are `NaN`, which becomes 1. */
  lemma NotANumberExample()
    ensures VoteCountFor("") == 1
    ensures VoteCountFor("abc") == 1
  {
    assert LeadingDigits("abc", 10) == [];
  }

  /** Worked example: zero is falsy and becomes 1. */
  lemma ZeroExample()
    ensures VoteCountFor("0") == 1
  {
    assert DigitsValue("0", 10) == 0 by { assert "0"[..0] == []; }
  }

  /** Worked example: a fraction is cut at the point. */
  lemma FractionExample()
    ensures VoteCountFor("2.5") == 2
  {
    assert LeadingDigits("2.5", 10) == "2";
    assert DigitsValue("2", 10) == 2 by { assert "2"[..0] == []; }
  }

  /** Worked example: leading white space is skipped. */
  lemma PaddedExample()
    ensures VoteCountFor("  12") == 12
  {
    assert TrimStart("  12") == "12";
    assert LeadingDigits("12", 10) == "12";
    assert DigitsValue("12", 10) == 12 by { assert "12"[..1] == "1"; }
  }

  /** Worked example: a `0x` prefix reads the rest as hexadecimal. */
  lemma HexExample()
    ensures VoteCountFor("0x1A") == 26
  {
    assert SplitRadix("0x1A") == (16, "1A");
    assert LeadingDigits("1A", 16) == "1A";
    assert DigitsValue("1A", 16) == 26 by { assert "1A"[..1] == "1"; }
  }
}
