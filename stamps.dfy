/** The upload timestamps: `strftime("%Y%m%d-%H%M%S")` in the third version
    and `strftime("%Y%m%d-%I%M%S%p")` in the first two. The clock reading is
    a parameter. */
module Stamps {
  import opened Text
  import opened Lex
  import opened Numbers

  /** A local clock reading, as `datetime.now()` returns it. */
  datatype Moment = Moment(year: nat, month: nat, day: nat, hour: nat, minute: nat, second: nat)

  /** Four-digit years (what `%Y` pads to) and in-range fields. */
  predicate Valid(m: Moment) {
    1000 <= m.year <= 9999 && 1 <= m.month <= 12 && 1 <= m.day <= 31 &&
    m.hour < 24 && m.minute < 60 && m.second < 60
  }

  /** `a` is earlier than `b`. */
  predicate Before(a: Moment, b: Moment) {
    a.year < b.year || (a.year == b.year &&
    (a.month < b.month || (a.month == b.month &&
    (a.day < b.day || (a.day == b.day &&
    (a.hour < b.hour || (a.hour == b.hour &&
    (a.minute < b.minute || (a.minute == b.minute && a.second < b.second)))))))))
  }

  /** `%Y%m%d-%H%M%S`. */
  function Stamp24(m: Moment): string {
    PadDigits(m.year, 4) + (PadDigits(m.month, 2) + (PadDigits(m.day, 2) + ("-" +
    (PadDigits(m.hour, 2) + (PadDigits(m.minute, 2) + PadDigits(m.second, 2))))))
  }

  /** `%I`: the hour on a 12-hour clock, where midnight and noon are 12. */
  function Hour12(hour: nat): (h: nat)
    ensures 1 <= h <= 12
    ensures h % 12 == hour % 12
  {
    if hour % 12 == 0 then 12 else hour % 12
  }

  /** `%p` in the C locale. */
  function Meridiem(hour: nat): string {
    if hour < 12 then "AM" else "PM"
  }

  /** `%Y%m%d-%I%M%S%p`. */
  function Stamp12(m: Moment): string {
    PadDigits(m.year, 4) + (PadDigits(m.month, 2) + (PadDigits(m.day, 2) + ("-" +
    (PadDigits(Hour12(m.hour), 2) + (PadDigits(m.minute, 2) + (PadDigits(m.second, 2) + Meridiem(m.hour)))))))
  }

  /** Every character of a stamp is a digit, `-`, or a letter of `AM`/`PM`. */
  lemma StampChars(m: Moment)
    ensures forall i :: 0 <= i < |Stamp24(m)| ==> IsDigit(Stamp24(m)[i]) || Stamp24(m)[i] == '-'
    ensures forall i :: 0 <= i < |Stamp12(m)| ==>
      IsDigit(Stamp12(m)[i]) || Stamp12(m)[i] in {'-', 'A', 'P', 'M'}
  {
  }

  lemma LessSingle(a: char, b: char)
    ensures Less([a], [b]) <==> a < b
  {
    assert [a][1..] == [] && [b][1..] == [];
  }

  /** Zero-padded numbers of one width compare as the numbers do. */
  lemma {:induction false} PadOrder(m: nat, n: nat, w: nat)
    requires m < Pow10(w) && n < Pow10(w)
    ensures Less(PadDigits(m, w), PadDigits(n, w)) <==> m < n
    ensures PadDigits(m, w) == PadDigits(n, w) <==> m == n
    decreases w
  {
    if w == 0 {
      LessIrreflexive([]);
    } else {
      PadOrder(m / 10, n / 10, w - 1);
      var dm, dn := DigitChar(m % 10), DigitChar(n % 10);
      LessSameLengthHeads(PadDigits(m / 10, w - 1), [dm], PadDigits(n / 10, w - 1), [dn]);
      LessSingle(dm, dn);
      assert dm == dn <==> m % 10 == n % 10;
      assert PadDigits(m, w) == PadDigits(n, w) <==> PadDigits(m / 10, w - 1) == PadDigits(n / 10, w - 1) && dm == dn by {
        if PadDigits(m, w) == PadDigits(n, w) {
          assert PadDigits(m, w)[..w - 1] == PadDigits(m / 10, w - 1);
          assert PadDigits(n, w)[..w - 1] == PadDigits(n / 10, w - 1);
          assert PadDigits(m, w)[w - 1] == dm && PadDigits(n, w)[w - 1] == dn;
        }
      }
      assert m == 10 * (m / 10) + m % 10 && n == 10 * (n / 10) + n % 10;
    }
  }

  /** One field of a stamp decides the order unless it is equal. */
  lemma PadThen(m: nat, n: nat, w: nat, x: string, y: string)
    requires m < Pow10(w) && n < Pow10(w)
    ensures Less(PadDigits(m, w) + x, PadDigits(n, w) + y) <==> m < n || (m == n && Less(x, y))
  {
    PadOrder(m, n, w);
    LessSameLengthHeads(PadDigits(m, w), x, PadDigits(n, w), y);
  }

  /** The third version's stamps sort as the moments do: names built on them
      list newest first under a descending sort. */
  lemma Stamp24Chronological(a: Moment, b: Moment)
    requires Valid(a) && Valid(b)
    ensures Less(Stamp24(a), Stamp24(b)) <==> Before(a, b)
  {
    var sa := PadDigits(a.minute, 2) + PadDigits(a.second, 2);
    var sb := PadDigits(b.minute, 2) + PadDigits(b.second, 2);
    PadThen(a.minute, b.minute, 2, PadDigits(a.second, 2), PadDigits(b.second, 2));
    PadOrder(a.second, b.second, 2);
    var ha := PadDigits(a.hour, 2) + sa;
    var hb := PadDigits(b.hour, 2) + sb;
    PadThen(a.hour, b.hour, 2, sa, sb);
    LessCommonPrefix("-", ha, hb);
    var da := PadDigits(a.day, 2) + ("-" + ha);
    var db := PadDigits(b.day, 2) + ("-" + hb);
    PadThen(a.day, b.day, 2, "-" + ha, "-" + hb);
    var ma := PadDigits(a.month, 2) + da;
    var mb := PadDigits(b.month, 2) + db;
    PadThen(a.month, b.month, 2, da, db);
    assert Pow10(4) == 10000;
    PadThen(a.year, b.year, 4, ma, mb);
  }

  /** The twelve-hour stamps do not: on any day, eleven in the morning sorts
      after one in the afternoon, so a newest-first listing shows the earlier
      recording above the later one. */
  lemma Stamp12NotChronological(year: nat, month: nat, day: nat, minute: nat, second: nat)
    requires Valid(Moment(year, month, day, 0, minute, second))
    ensures var a := Moment(year, month, day, 11, minute, second);
      var b := Moment(year, month, day, 13, minute, second);
      Valid(a) && Valid(b) && Before(a, b) && Less(Stamp12(b), Stamp12(a))
  {
    var a := Moment(year, month, day, 11, minute, second);
    var b := Moment(year, month, day, 13, minute, second);
    assert Hour12(a.hour) == 11 && Hour12(b.hour) == 1;
    var ta := PadDigits(minute, 2) + (PadDigits(second, 2) + Meridiem(a.hour));
    var tb := PadDigits(minute, 2) + (PadDigits(second, 2) + Meridiem(b.hour));
    PadThen(1, 11, 2, tb, ta);
    var pa := PadDigits(11, 2) + ta;
    var pb := PadDigits(1, 2) + tb;
    LessCommonPrefix("-", pb, pa);
    PadThen(day, day, 2, "-" + pb, "-" + pa);
    var da := PadDigits(day, 2) + ("-" + pa);
    var db := PadDigits(day, 2) + ("-" + pb);
    PadThen(month, month, 2, db, da);
    assert Pow10(4) == 10000;
    PadThen(year, year, 4, PadDigits(month, 2) + db, PadDigits(month, 2) + da);
  }
}
