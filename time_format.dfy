/** `formatTime`: a number of seconds shown as hours, minutes and seconds,
    each written in decimal and padded to at least two digits, separated by
    colons ("HH:MM:SS"; the hours field grows past two digits when needed). */
module TimeFormat {

  /** The three fields `formatTime` computes. */
  datatype Clock = Clock(hours: nat, minutes: nat, seconds: nat)

  /** Hours, minutes within the hour, seconds within the minute. */
  function Split(total: nat): (c: Clock)
    ensures c.hours * 3600 + c.minutes * 60 + c.seconds == total
    ensures c.minutes < 60 && c.seconds < 60
  {
    var h, rest := total / 3600, total % 3600;
    assert total % 60 == rest % 60 by {
      assert total == (h * 60 + rest / 60) * 60 + rest % 60;
      RemainderOf(total, h * 60 + rest / 60, rest % 60);
    }
    Clock(h, rest / 60, total % 60)
  }

  /** The remainder by sixty is the only one below sixty. */
  lemma RemainderOf(x: nat, q: int, r: int)
    requires x == q * 60 + r && 0 <= r < 60
    ensures x % 60 == r
  {
    assert (q - x / 60) * 60 == x % 60 - r;
  }

  /** No other hours/minutes/seconds triple with minutes and seconds below
      sixty adds up to the same number of seconds. */
  lemma SplitUnique(total: nat, c: Clock)
    requires c.hours * 3600 + c.minutes * 60 + c.seconds == total
    requires c.minutes < 60 && c.seconds < 60
    ensures c == Split(total)
  {
    var s := Split(total);
    var a, b := c.minutes * 60 + c.seconds, s.minutes * 60 + s.seconds;
    assert c.hours * 3600 + a == s.hours * 3600 + b;
    assert 0 <= a < 3600 && 0 <= b < 3600;
    assert (c.hours - s.hours) * 3600 == b - a;
    assert c.hours == s.hours;
    assert (c.minutes - s.minutes) * 60 == s.seconds - c.seconds;
  }

  function DigitChar(d: nat): char
    requires d < 10
  {
    ('0' as int + d) as char
  }

  predicate IsDigit(ch: char) { '0' <= ch <= '9' }

  function DigitValue(ch: char): nat {
    if IsDigit(ch) then ch as int - '0' as int else 0
  }

  /** `n.toString()` for a non-negative integer: decimal digits without
      leading zeros. */
  function Decimal(n: nat): (s: string)
    ensures |s| >= 1 && (forall i :: 0 <= i < |s| ==> IsDigit(s[i]))
    ensures |s| == 1 <==> n < 10
    ensures n < 100 ==> |s| <= 2
    ensures s[0] == '0' <==> n == 0
  {
    if n < 10 then [DigitChar(n)] else Decimal(n / 10) + [DigitChar(n % 10)]
  }

  /** `s.padStart(2, '0')`: a string of two or more characters comes back
      as it is; a shorter one gets zeros in front up to two characters. */
  function PadStart2(s: string): (r: string)
    ensures |r| == if |s| < 2 then 2 else |s|
    ensures |s| >= 2 ==> r == s
    ensures |s| < 2 ==> r[2 - |s|..] == s && forall i :: 0 <= i < 2 - |s| ==> r[i] == '0'
  {
    if |s| == 0 then "00" else if |s| == 1 then "0" + s else s
  }

  /** The string `formatTime` returns: at least eight characters, the last
      two fields two characters each, separated by colons; hours past two
      digits are written without a leading zero. */
  function FormatTime(total: nat): (r: string)
    ensures |r| >= 8 && r[|r| - 3] == ':' && r[|r| - 6] == ':'
    ensures |r| > 8 ==> r[0] != '0'
  {
    var c := Split(total);
    FieldsLayout(PadStart2(Decimal(c.hours)), PadStart2(Decimal(c.minutes)), PadStart2(Decimal(c.seconds)));
    PadStart2(Decimal(c.hours)) + ":" + PadStart2(Decimal(c.minutes)) + ":" + PadStart2(Decimal(c.seconds))
  }

  /** Reading a string of decimal digits back. */
  function ParseDecimal(s: string): nat {
    if s == [] then 0 else ParseDecimal(s[..|s| - 1]) * 10 + DigitValue(s[|s| - 1])
  }

  /** Where the colons of three joined fields are, when the last two fields
      have two characters each, and that the first field comes first. */
  lemma FieldsLayout(h: string, m: string, s: string)
    requires |m| == 2 && |s| == 2
    ensures var r := h + ":" + m + ":" + s;
      |r| == |h| + 6 && r[|r| - 3] == ':' && r[|r| - 6] == ':' && (h != [] ==> r[0] == h[0])
  {
  }

  /** Reads an "H…H:MM:SS" string back into seconds: everything before the
      second-to-last colon is hours, the last two fields two digits each. */
  function ParseTime(s: string): nat
    requires |s| >= 6
  {
    ParseDecimal(s[..|s| - 6]) * 3600 + ParseDecimal(s[|s| - 5..|s| - 3]) * 60 + ParseDecimal(s[|s| - 2..])
  }

  lemma {:induction false} ParseDecimalOfDecimal(n: nat)
    ensures ParseDecimal(Decimal(n)) == n
  {
    if n >= 10 {
      var s := Decimal(n);
      ParseDecimalOfDecimal(n / 10);
      assert s[..|s| - 1] == Decimal(n / 10);
    }
  }

  /** Padding with a leading zero does not change the value read back. */
  lemma PaddedValue(n: nat)
    ensures ParseDecimal(PadStart2(Decimal(n))) == n
  {
    ParseDecimalOfDecimal(n);
    if n < 10 {
      var p := PadStart2(Decimal(n));
      assert p == ['0', DigitChar(n)];
      assert p[..1] == ['0'];
      assert ParseDecimal(['0']) == 0 by {
        assert ['0'][..0] == [];
      }
    }
  }

  /** The shape of the formatted time: apart from its two colons it is all
      digits, and under a hundred hours it is exactly "HH:MM:SS". */
  lemma FormatTimeShape(total: nat)
    ensures var r := FormatTime(total);
      && (forall i :: 0 <= i < |r| && i != |r| - 3 && i != |r| - 6 ==> IsDigit(r[i]))
      && (total < 360000 <==> |r| == 8)
  {
    var c := Split(total);
    var h, m, s := PadStart2(Decimal(c.hours)), PadStart2(Decimal(c.minutes)), PadStart2(Decimal(c.seconds));
    var r := FormatTime(total);
    assert r == h + ":" + m + ":" + s;
    assert |m| == 2 && |s| == 2;
    assert forall i :: 0 <= i < |h| ==> IsDigit(h[i]);
    assert forall i :: 0 <= i < |m| ==> IsDigit(m[i]);
    assert forall i :: 0 <= i < |s| ==> IsDigit(s[i]);
    forall i | 0 <= i < |r| && i != |r| - 3 && i != |r| - 6 ensures IsDigit(r[i]) {
      if i < |h| {
        assert r[i] == h[i];
      } else if i < |h| + 3 {
        assert r[i] == m[i - |h| - 1];
      } else {
        assert r[i] == s[i - |h| - 4];
      }
    }
    assert total < 360000 <==> c.hours < 100 by {
      if c.hours >= 100 {
        assert c.hours * 3600 >= 360000;
      }
    }
  }

  /** Reading back a string assembled from three fields separated by
      colons, the last two of two characters each, gives each field's value. */
  lemma ParseFields(h: string, m: string, s: string)
    requires |m| == 2 && |s| == 2
    ensures |h + ":" + m + ":" + s| >= 6
    ensures ParseTime(h + ":" + m + ":" + s)
         == ParseDecimal(h) * 3600 + ParseDecimal(m) * 60 + ParseDecimal(s)
  {
    FieldSlices(h, m, s);
  }

  /** Where each of three fields joined by colons sits in the joined string,
      when the last two have two characters each. */
  lemma FieldSlices(h: string, m: string, s: string)
    requires |m| == 2 && |s| == 2
    ensures var r := h + ":" + m + ":" + s;
      |r| == |h| + 6 && r[..|r| - 6] == h && r[|r| - 5..|r| - 3] == m && r[|r| - 2..] == s
  {
    var tail := m + ":" + s;
    var r := (h + ":") + tail;
    assert |tail| == 5 && |r| == |h| + 6;
    assert h + ":" + m + ":" + s == r;
    assert r[..|r| - 6] == h;
    assert r[|r| - 5..] == tail;
    assert tail[..2] == m && tail[3..] == s;
    assert r[|r| - 5..|r| - 3] == tail[..2];
    assert r[|r| - 2..] == tail[3..];
  }

  /** Round trip: reading the formatted string back gives the seconds it
      was made from. */
  lemma FormatTimeRoundTrip(total: nat)
    ensures |FormatTime(total)| >= 6 && ParseTime(FormatTime(total)) == total
  {
    var c := Split(total);
    ParseFields(PadStart2(Decimal(c.hours)), PadStart2(Decimal(c.minutes)), PadStart2(Decimal(c.seconds)));
    PaddedValue(c.hours);
    PaddedValue(c.minutes);
    PaddedValue(c.seconds);
  }

  /** Each field of the formatted string reads back as the corresponding
      part of `Split`: the hours before the first colon, then the minutes,
      then the seconds, so the minutes and seconds fields are below 60. */
  lemma FormatTimeFields(total: nat)
    ensures var r := FormatTime(total);
      && |r| >= 8
      && ParseDecimal(r[..|r| - 6]) == Split(total).hours
      && ParseDecimal(r[|r| - 5..|r| - 3]) == Split(total).minutes
      && ParseDecimal(r[|r| - 2..]) == Split(total).seconds
  {
    var c := Split(total);
    FieldSlices(PadStart2(Decimal(c.hours)), PadStart2(Decimal(c.minutes)), PadStart2(Decimal(c.seconds)));
    PaddedValue(c.hours);
    PaddedValue(c.minutes);
    PaddedValue(c.seconds);
  }
}
