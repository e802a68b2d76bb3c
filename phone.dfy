/**
 * The phone-number field of the notification dialog: the keystroke formatter
 * `formatPhoneNumber`, the validator `isValidPhoneNumber` (the regular
 * expression `^\+?[1-9]\d{1,14}$`) and the guard of the submit handler.
 */
module Phone {
  import opened Wrappers
  import opened Decimal

  /** `value.replace(/[^\d]/g, "")`: the ASCII digits of `value`, in order. */
  function StripNonDigits(value: string): (digits: string)
    ensures AllDigits(digits) && |digits| <= |value|
  {
    if value == [] then []
    else (if IsDigit(value[0]) then [value[0]] else []) + StripNonDigits(value[1..])
  }

  function Min(a: int, b: int): int { if a <= b then a else b }

  /** `formatPhoneNumber`, re-applied to the field's value on every change. */
  function FormatPhoneNumber(value: string): string
  {
    if value == [] then value
    else
      var d := StripNonDigits(value);
      if |d| < 4 then d
      else if |d| < 7 then "(" + d[..3] + ") " + d[3..]
      else "(" + d[..3] + ") " + d[3..6] + "-" + d[6..Min(|d|, 10)]
  }

  /** Every digit of the input is kept, as often as it occurs there. */
  lemma {:induction false} StripKeepsDigits(value: string)
    ensures forall c :: IsDigit(c) ==> multiset(StripNonDigits(value))[c] == multiset(value)[c]
  {
    if value != [] {
      StripKeepsDigits(value[1..]);
      assert value == [value[0]] + value[1..];
    }
  }

  lemma {:induction false} StripConcat(a: string, b: string)
    ensures StripNonDigits(a + b) == StripNonDigits(a) + StripNonDigits(b)
  {
    if a == [] {
      assert a + b == b;
    } else {
      assert (a + b)[1..] == a[1..] + b;
      StripConcat(a[1..], b);
    }
  }

  /** The punctuation the formatter adds carries no digits. */
  lemma StripOfPunctuation()
    ensures StripNonDigits("(") == [] && StripNonDigits(") ") == [] && StripNonDigits("-") == []
  {
    assert StripNonDigits(") ") == StripNonDigits(" ");
  }

  lemma StripTwoGroups(x: string, y: string)
    requires AllDigits(x) && AllDigits(y)
    ensures StripNonDigits("(" + x + ") " + y) == x + y
  {
    StripOfPunctuation();
    var a := "(" + x;
    var b := a + ") ";
    StripConcat("(", x);
    StripOfDigits(x);
    assert StripNonDigits(a) == x;
    StripConcat(a, ") ");
    assert StripNonDigits(b) == x;
    StripConcat(b, y);
    StripOfDigits(y);
  }

  lemma StripThreeGroups(x: string, y: string, z: string)
    requires AllDigits(x) && AllDigits(y) && AllDigits(z)
    ensures StripNonDigits("(" + x + ") " + y + "-" + z) == x + y + z
  {
    var b := "(" + x + ") " + y;
    StripTwoGroups(x, y);
    StripOfPunctuation();
    var c := b + "-";
    StripConcat(b, "-");
    assert StripNonDigits(c) == x + y;
    StripConcat(c, z);
    StripOfDigits(z);
  }

  lemma {:induction false} StripOfDigits(s: string)
    requires AllDigits(s)
    ensures StripNonDigits(s) == s
  {
    if s != [] {
      StripOfDigits(s[1..]);
    }
  }

  /** The digits of the formatted field are the first min(n, 10) digits typed. */
  lemma FormatKeepsDigits(value: string)
    ensures StripNonDigits(FormatPhoneNumber(value))
         == StripNonDigits(value)[..Min(|StripNonDigits(value)|, 10)]
  {
    var d := StripNonDigits(value);
    if value == [] {
    } else if |d| < 4 {
      StripOfDigits(d);
    } else if |d| < 7 {
      StripTwoGroups(d[..3], d[3..]);
      assert d[..3] + d[3..] == d;
    } else {
      var e := Min(|d|, 10);
      StripThreeGroups(d[..3], d[3..6], d[6..e]);
      assert d[..3] + d[3..6] + d[6..e] == d[..e];
    }
  }

  /** The position `i` of a formatted field holds punctuation rather than a digit. */
  predicate IsPunctuationSlot(n: nat, i: int)
  {
    4 <= n && (i == 0 || i == 4 || i == 5 || (7 <= n && i == 9))
  }

  /**
   * The layout of the formatted field, position by position, for n digits
   * typed: at most three are shown bare; from four on, "(" sits at 0, ")" at
   * 4 and a space at 5; from seven on, "-" sits at 9 and at most ten digits
   * are shown. Every other position holds a digit; which digits appear is
   * stated by `FormatKeepsDigits`.
   */
  lemma FormatShape(value: string)
    ensures var n, f := |StripNonDigits(value)|, FormatPhoneNumber(value);
      && (n < 4 ==> f == StripNonDigits(value))
      && (4 <= n < 7 ==> |f| == n + 3)
      && (7 <= n ==> |f| == Min(n, 10) + 4 && f[9] == '-')
      && (4 <= n ==> f[0] == '(' && f[4] == ')' && f[5] == ' ')
      && (forall i :: 0 <= i < |f| && !IsPunctuationSlot(n, i) ==> IsDigit(f[i]))
  {
    var d := StripNonDigits(value);
    var n, f := |d|, FormatPhoneNumber(value);
    if value == [] {
      assert d == [];
    } else if 4 <= n < 7 {
      assert f == "(" + d[..3] + ") " + d[3..];
      forall i | 0 <= i < |f| && !IsPunctuationSlot(n, i) ensures IsDigit(f[i]) {
        if i < 4 { assert f[i] == d[i - 1]; } else { assert f[i] == d[i - 3]; }
      }
    } else if 7 <= n {
      var e := Min(n, 10);
      assert f == "(" + d[..3] + ") " + d[3..6] + "-" + d[6..e];
      forall i | 0 <= i < |f| && !IsPunctuationSlot(n, i) ensures IsDigit(f[i]) {
        if i < 4 { assert f[i] == d[i - 1]; }
        else if i < 9 { assert f[i] == d[i - 3]; }
        else { assert f[i] == d[i - 4]; }
      }
    }
  }

  /** A raw digit string of at most three digits is shown unchanged. */
  lemma ShortDigitsUnchanged(value: string)
    requires AllDigits(value) && |value| < 4
    ensures FormatPhoneNumber(value) == value
  {
    StripOfDigits(value);
  }

  /** Formatting the already formatted field value changes nothing. */
  lemma FormatIdempotent(value: string)
    ensures FormatPhoneNumber(FormatPhoneNumber(value)) == FormatPhoneNumber(value)
  {
    var d := StripNonDigits(value);
    var f := FormatPhoneNumber(value);
    FormatKeepsDigits(value);
    var e := d[..Min(|d|, 10)];
    assert StripNonDigits(f) == e;
    if value == [] || |d| == 0 {
      assert f == [];
    } else if |d| < 4 {
      assert f == d == e;
    } else {
      assert f != [];
      if |d| < 7 {
        assert e == d;
      } else {
        assert e[..3] == d[..3] && e[3..6] == d[3..6] && e[6..Min(|e|, 10)] == d[6..Min(|d|, 10)];
      }
    }
  }

  /** The validator `isValidPhoneNumber`, stated directly. */
  predicate IsValidPhoneNumber(phone: string)
  {
    var body := if |phone| > 0 && phone[0] == '+' then phone[1..] else phone;
    2 <= |body| <= 15 && '1' <= body[0] <= '9' && AllDigits(body)
  }

  /** What the validator rejects: the empty string, a leading 0, more than 15 digits. */
  lemma ValidPhoneRejects(phone: string)
    ensures phone == [] ==> !IsValidPhoneNumber(phone)
    ensures |phone| > 0 && phone[0] == '0' ==> !IsValidPhoneNumber(phone)
    ensures |StripNonDigits(phone)| > 15 ==> !IsValidPhoneNumber(phone)
    ensures IsValidPhoneNumber(phone) ==> 2 <= |StripNonDigits(phone)| <= 15
  {
    if IsValidPhoneNumber(phone) {
      if phone[0] == '+' {
        StripConcat("+", phone[1..]);
        assert "+" + phone[1..] == phone;
        StripOfDigits(phone[1..]);
      } else {
        StripOfDigits(phone);
      }
    }
  }

  /** On a string of digits only, valid means 2 to 15 digits, the first not 0. */
  lemma ValidDigitsOnly(digits: string)
    requires AllDigits(digits)
    ensures IsValidPhoneNumber(digits) <==> 2 <= |digits| <= 15 && digits[0] != '0'
  {
  }

  // An anchored regular expression built of repeated character classes,
  // with a backtracking full-match semantics, as an independent reference
  // for the validator.

  datatype CharClass = Exactly(c: char) | Between(lo: char, hi: char)

  /** `cls{min,max}`; `x?` is `x{0,1}` and a single class is `cls{1,1}`. */
  datatype Piece = Piece(cls: CharClass, min: nat, max: nat)

  predicate InClass(c: char, cls: CharClass)
  {
    match cls
    case Exactly(x) => c == x
    case Between(lo, hi) => lo <= c <= hi
  }

  /** Does the pattern `^ps$` match all of `s`? */
  predicate Matches(ps: seq<Piece>, s: string)
    decreases |s|, |ps|
  {
    if ps == [] then s == []
    else
      var p := ps[0];
      (p.min == 0 && Matches(ps[1..], s))
      || (p.max > 0 && |s| > 0 && InClass(s[0], p.cls)
          && Matches([Piece(p.cls, if p.min == 0 then 0 else p.min - 1, p.max - 1)] + ps[1..], s[1..]))
  }

  /** `^\+?[1-9]\d{1,14}$` */
  const PhonePattern: seq<Piece> :=
    [Piece(Exactly('+'), 0, 1), Piece(Between('1', '9'), 1, 1), Piece(Between('0', '9'), 1, 14)]

  /** A single repeated class matches exactly the strings of min..max members. */
  lemma {:induction false} RepeatMatches(cls: CharClass, min: nat, max: nat, s: string)
    ensures Matches([Piece(cls, min, max)], s)
        <==> min <= |s| <= max && forall i :: 0 <= i < |s| ==> InClass(s[i], cls)
  {
    var ps := [Piece(cls, min, max)];
    assert ps[1..] == [];
    if s != [] && max > 0 {
      var next := if min == 0 then 0 else min - 1;
      var tail := [Piece(cls, next, max - 1)];
      assert [Piece(cls, next, max - 1)] + ps[1..] == tail;
      assert !Matches([], s);
      assert Matches(ps, s) <==> InClass(s[0], cls) && Matches(tail, s[1..]);
      RepeatMatches(cls, next, max - 1, s[1..]);
      AllInClassSplit(cls, s);
    }
  }

  /** Every character of a non-empty string is in a class iff the first one and the rest are. */
  lemma AllInClassSplit(cls: CharClass, s: string)
    requires s != []
    ensures (forall i :: 0 <= i < |s| ==> InClass(s[i], cls))
        <==> InClass(s[0], cls) && forall i :: 0 <= i < |s[1..]| ==> InClass(s[1..][i], cls)
  {
    if InClass(s[0], cls) && forall i :: 0 <= i < |s[1..]| ==> InClass(s[1..][i], cls) {
      forall i | 0 <= i < |s| ensures InClass(s[i], cls) {
        if i > 0 { assert s[i] == s[1..][i - 1]; }
      }
    }
  }

  /** A class taken exactly once consumes one character. */
  lemma SingleMatches(cls: CharClass, rest: seq<Piece>, s: string)
    ensures Matches([Piece(cls, 1, 1)] + rest, s)
        <==> |s| > 0 && InClass(s[0], cls) && Matches(rest, s[1..])
  {
    var ps := [Piece(cls, 1, 1)] + rest;
    assert ps[1..] == rest;
    if |s| > 0 {
      var qs := [Piece(cls, 0, 0)] + rest;
      assert qs[1..] == rest;
      assert Matches(qs, s[1..]) == Matches(rest, s[1..]);
    }
  }

  /** An optional class consumes one character or none. */
  lemma OptionalMatches(cls: CharClass, rest: seq<Piece>, s: string)
    ensures Matches([Piece(cls, 0, 1)] + rest, s)
        <==> Matches(rest, s) || (|s| > 0 && InClass(s[0], cls) && Matches(rest, s[1..]))
  {
    var ps := [Piece(cls, 0, 1)] + rest;
    assert ps[1..] == rest;
    if |s| > 0 {
      var qs := [Piece(cls, 0, 0)] + rest;
      assert qs[1..] == rest;
      assert Matches(qs, s[1..]) == Matches(rest, s[1..]);
    }
  }

  /** `[1-9]\d{1,14}` matches a nonzero digit followed by 1 to 14 digits. */
  lemma BodyMatches(s: string)
    ensures Matches(PhonePattern[1..], s)
        <==> 2 <= |s| <= 15 && '1' <= s[0] <= '9' && AllDigits(s)
  {
    var digits := Between('0', '9');
    assert PhonePattern[1..] == [Piece(Between('1', '9'), 1, 1)] + [Piece(digits, 1, 14)];
    SingleMatches(Between('1', '9'), [Piece(digits, 1, 14)], s);
    if |s| > 0 {
      RepeatMatches(digits, 1, 14, s[1..]);
      if 2 <= |s| <= 15 && '1' <= s[0] <= '9' && AllDigits(s) {
        assert forall i :: 0 <= i < |s[1..]| ==> InClass(s[1..][i], digits) by {
          forall i | 0 <= i < |s[1..]| ensures InClass(s[1..][i], digits) {
            assert s[1..][i] == s[i + 1];
          }
        }
      }
      if Matches(PhonePattern[1..], s) {
        assert AllDigits(s) by {
          forall i | 0 <= i < |s| ensures IsDigit(s[i]) {
            if i > 0 { assert s[i] == s[1..][i - 1]; }
          }
        }
      }
    }
  }

  /** The validator accepts exactly the strings the regular expression matches. */
  lemma ValidatorIsRegex(phone: string)
    ensures IsValidPhoneNumber(phone) <==> Matches(PhonePattern, phone)
  {
    assert PhonePattern == [Piece(Exactly('+'), 0, 1)] + PhonePattern[1..];
    OptionalMatches(Exactly('+'), PhonePattern[1..], phone);
    BodyMatches(phone);
    if |phone| > 0 {
      BodyMatches(phone[1..]);
    }
  }

  /**
   * The guard of `handleNotificationSubmit`: the field's digits are sent to
   * the store only when they pass the validator; otherwise nothing is sent.
   */
  function Submission(field: string): (request: Option<string>)
    ensures var d := StripNonDigits(field); request.Some? <==> 2 <= |d| <= 15 && d[0] != '0'
    ensures request.Some? ==> request.value == StripNonDigits(field)
  {
    var unformatted := StripNonDigits(field);
    ValidDigitsOnly(unformatted);
    if IsValidPhoneNumber(unformatted) then Some(unformatted) else None
  }

  /**
   * What the submit guard does with a field filled by the formatter: it sends
   * the first min(n, 10) typed digits when there are at least two and the first
   * is not 0, and sends nothing otherwise. A typed "+" never reaches the request.
   */
  lemma SubmitFormattedField(typed: string)
    ensures var d := StripNonDigits(typed);
      var e := d[..Min(|d|, 10)];
      Submission(FormatPhoneNumber(typed)) == if 2 <= |e| && e[0] != '0' then Some(e) else None
  {
    FormatKeepsDigits(typed);
    var d := StripNonDigits(typed);
    ValidDigitsOnly(d[..Min(|d|, 10)]);
  }
}
