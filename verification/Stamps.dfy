/** Fixed-width UTC stamps (adapters/persistence_sqlite/connection.py, `utc_iso`): their text order is the
    order of their calendar fields, so comparing texts compares instants. */
module Stamps {
  import opened Order

  function Power10(n: nat): nat { if n == 0 then 1 else 10 * Power10(n - 1) }

  /** The numbers that fit on 2, 4 and 6 digits. */
  lemma Widths()
    ensures Power10(2) == 100 && Power10(4) == 1_0000 && Power10(6) == 100_0000
  {
  }

  /** `n` written on exactly `width` digits. */
  function Fixed(n: nat, width: nat): (r: string)
    ensures |r| == width
  {
    if width == 0 then [] else Fixed(n / 10, width - 1) + [('0' as int + n % 10) as char]
  }

  lemma {:induction false} BelowConcat(p: string, q: string, s: string, t: string)
    requires |p| == |q|
    ensures Below(p + s, q + t) <==> Below(p, q) || (p == q && Below(s, t))
  {
    if p == [] {
      assert p + s == s && q + t == t;
      BelowIrreflexive([]);
    } else {
      assert (p + s)[1..] == p[1..] + s && (q + t)[1..] == q[1..] + t;
      BelowConcat(p[1..], q[1..], s, t);
      assert p == [p[0]] + p[1..] && q == [q[0]] + q[1..];
    }
  }

  lemma {:induction false} FixedOrder(a: nat, b: nat, width: nat)
    requires a < Power10(width) && b < Power10(width)
    ensures Below(Fixed(a, width), Fixed(b, width)) <==> a < b
    ensures Fixed(a, width) == Fixed(b, width) <==> a == b
  {
    if width > 0 {
      FixedOrder(a / 10, b / 10, width - 1);
      var x, y := ('0' as int + a % 10) as char, ('0' as int + b % 10) as char;
      BelowConcat(Fixed(a / 10, width - 1), Fixed(b / 10, width - 1), [x], [y]);
      assert [x][1..] == [] && [y][1..] == [];
      assert Fixed(a, width)[..width - 1] == Fixed(a / 10, width - 1);
      assert Fixed(b, width)[..width - 1] == Fixed(b / 10, width - 1);
      assert Fixed(a, width)[width - 1] == x && Fixed(b, width)[width - 1] == y;
    }
  }

  /** Fields of fixed widths, each followed by a fixed separator. */
  datatype Layout = Layout(width: nat, separator: string)

  ghost predicate Fits(values: seq<nat>, layout: seq<Layout>) {
    |values| == |layout| && forall i :: 0 <= i < |values| ==> values[i] < Power10(layout[i].width)
  }

  function Render(values: seq<nat>, layout: seq<Layout>): string
    requires |values| == |layout|
  {
    if values == [] then []
    else Fixed(values[0], layout[0].width) + (layout[0].separator + Render(values[1..], layout[1..]))
  }

  /** The first differing field is smaller. */
  predicate FieldsBelow(a: seq<nat>, b: seq<nat>) {
    a != [] && b != [] && (a[0] < b[0] || (a[0] == b[0] && FieldsBelow(a[1..], b[1..])))
  }

  lemma {:induction false} RenderOrder(a: seq<nat>, b: seq<nat>, layout: seq<Layout>)
    requires Fits(a, layout) && Fits(b, layout)
    ensures Below(Render(a, layout), Render(b, layout)) <==> FieldsBelow(a, b)
  {
    if a != [] {
      var w, s := layout[0].width, layout[0].separator;
      var ra, rb := Render(a[1..], layout[1..]), Render(b[1..], layout[1..]);
      RenderOrder(a[1..], b[1..], layout[1..]);
      FixedOrder(a[0], b[0], w);
      BelowConcat(s, s, ra, rb);
      BelowIrreflexive(s);
      BelowConcat(Fixed(a[0], w), Fixed(b[0], w), s + ra, s + rb);
    }
  }

  // ---------- the stamp ----------

  const DATE_LAYOUT := [Layout(4, "-"), Layout(2, "-"), Layout(2, "")]

  const TIME_LAYOUT := [Layout(2, ":"), Layout(2, ":"), Layout(2, "."), Layout(6, "+00:00")]

  datatype Instant = Instant(date: seq<nat>, time: seq<nat>) {
    /** Year, month, day; hour, minute, second, microsecond: within their widths. */
    ghost predicate Valid() { Fits(date, DATE_LAYOUT) && Fits(time, TIME_LAYOUT) }
  }

  function IsoDate(date: seq<nat>): string
    requires |date| == 3
  {
    Render(date, DATE_LAYOUT)
  }

  /** `YYYY-MM-DDThh:mm:ss.ffffff+00:00` */
  function UtcIso(t: Instant): string
    requires |t.date| == 3 && |t.time| == 4
  {
    IsoDate(t.date) + ("T" + Render(t.time, TIME_LAYOUT))
  }

  /** The number a text of digits stands for. */
  function ReadDigits(text: string): int {
    if text == [] then 0 else ReadDigits(text[..|text| - 1]) * 10 + (text[|text| - 1] as int - '0' as int)
  }

  lemma {:induction false} FixedReads(n: nat, width: nat)
    requires n < Power10(width)
    ensures ReadDigits(Fixed(n, width)) == n
    ensures forall i :: 0 <= i < width ==> '0' <= Fixed(n, width)[i] <= '9'
  {
    if width > 0 {
      FixedReads(n / 10, width - 1);
      var text := Fixed(n, width);
      assert text[..width - 1] == Fixed(n / 10, width - 1);
      assert text[width - 1] == ('0' as int + n % 10) as char;
    }
  }

  /** A stamp is its date, a `T` and its time. */
  lemma StampParts(t: Instant)
    requires |t.date| == 3 && |t.time| == 4
    ensures |UtcIso(t)| == 11 + |Render(t.time, TIME_LAYOUT)|
    ensures UtcIso(t)[..10] == IsoDate(t.date) && UtcIso(t)[10] == 'T' && UtcIso(t)[11..] == Render(t.time, TIME_LAYOUT)
  {
    IsoDateWidth(t.date);
  }

  /** The fields stand on their digits between the marks of ISO 8601. */
  lemma DateText(y: nat, mo: nat, d: nat)
    ensures IsoDate([y, mo, d]) == Fixed(y, 4) + "-" + Fixed(mo, 2) + "-" + Fixed(d, 2)
  {
    var rest := [Layout(2, "-"), Layout(2, "")];
    assert [y, mo, d][1..] == [mo, d] && DATE_LAYOUT[1..] == rest;
    MonthText(mo, d);
    DateJoins(Fixed(y, 4), Fixed(mo, 2), Fixed(d, 2));
  }

  lemma MonthText(mo: nat, d: nat)
    ensures Render([mo, d], [Layout(2, "-"), Layout(2, "")]) == Fixed(mo, 2) + "-" + Fixed(d, 2)
  {
    var rest := [Layout(2, "-"), Layout(2, "")];
    assert [mo, d][1..] == [d] && rest[1..] == [Layout(2, "")] && [d][1..] == [] && rest[1..][1..] == [];
    assert Render([d], rest[1..]) == Fixed(d, 2) + ("" + []);
  }

  lemma DateJoins(y: string, mo: string, d: string)
    ensures y + ("-" + (mo + "-" + d)) == y + "-" + mo + "-" + d
  {
  }

  lemma TimeText(h: nat, mi: nat, s: nat, us: nat)
    ensures Render([h, mi, s, us], TIME_LAYOUT) ==
      Fixed(h, 2) + ":" + Fixed(mi, 2) + ":" + Fixed(s, 2) + "." + Fixed(us, 6) + "+00:00"
  {
    var rest := [Layout(2, ":"), Layout(2, "."), Layout(6, "+00:00")];
    assert [h, mi, s, us][1..] == [mi, s, us] && TIME_LAYOUT[1..] == rest;
    assert [mi, s, us][1..] == [s, us] && rest[1..] == [Layout(2, "."), Layout(6, "+00:00")];
    SecondsText(s, us);
    assert Render([mi, s, us], rest) == Fixed(mi, 2) + (":" + (Fixed(s, 2) + "." + Fixed(us, 6) + "+00:00"));
    TimeJoins(Fixed(h, 2), Fixed(mi, 2), Fixed(s, 2), Fixed(us, 6));
  }

  lemma TimeJoins(h: string, mi: string, s: string, us: string)
    ensures h + (":" + (mi + (":" + (s + "." + us + "+00:00")))) == h + ":" + mi + ":" + s + "." + us + "+00:00"
  {
  }

  lemma SecondsText(s: nat, us: nat)
    ensures Render([s, us], [Layout(2, "."), Layout(6, "+00:00")]) == Fixed(s, 2) + "." + Fixed(us, 6) + "+00:00"
  {
    var rest := [Layout(2, "."), Layout(6, "+00:00")];
    assert [s, us][1..] == [us] && rest[1..] == [Layout(6, "+00:00")] && [us][1..] == [] && rest[1..][1..] == [];
    assert Render([us], rest[1..]) == Fixed(us, 6) + ("+00:00" + []);
  }

  ghost predicate Earlier(a: Instant, b: Instant) {
    FieldsBelow(a.date, b.date) || (a.date == b.date && FieldsBelow(a.time, b.time))
  }

  lemma IsoDateWidth(date: seq<nat>)
    requires |date| == 3
    ensures |IsoDate(date)| == 10
  {
    assert DATE_LAYOUT[1..] == [Layout(2, "-"), Layout(2, "")];
    assert DATE_LAYOUT[1..][1..] == [Layout(2, "")];
    assert |Render(date[1..][1..][1..], DATE_LAYOUT[1..][1..][1..])| == 0;
    assert |Render(date[1..][1..], DATE_LAYOUT[1..][1..])| == 2;
    assert |Render(date[1..], DATE_LAYOUT[1..])| == 5;
  }

  lemma {:induction false} FieldsTotal(a: seq<nat>, b: seq<nat>)
    requires |a| == |b|
    ensures a == b || FieldsBelow(a, b) || FieldsBelow(b, a)
    ensures a == b ==> !FieldsBelow(a, b)
  {
    if a != [] {
      FieldsTotal(a[1..], b[1..]);
      assert a == [a[0]] + a[1..] && b == [b[0]] + b[1..];
    }
  }

  /** Text order is time order; the first ten characters are the date; and a stamp is before a cutoff
      date exactly when its own date is. */
  lemma StampOrder(a: Instant, b: Instant)
    requires a.Valid() && b.Valid()
    ensures Below(UtcIso(a), UtcIso(b)) <==> Earlier(a, b)
    ensures Prefix(UtcIso(a), 10) == IsoDate(a.date)
    ensures Below(UtcIso(a), IsoDate(b.date)) <==> FieldsBelow(a.date, b.date)
  {
    IsoDateWidth(a.date);
    IsoDateWidth(b.date);
    RenderOrder(a.date, b.date, DATE_LAYOUT);
    RenderOrder(b.date, a.date, DATE_LAYOUT);
    RenderOrder(a.time, b.time, TIME_LAYOUT);
    var ta, tb := Render(a.time, TIME_LAYOUT), Render(b.time, TIME_LAYOUT);
    BelowConcat("T", "T", ta, tb);
    BelowIrreflexive("T");
    BelowConcat(IsoDate(a.date), IsoDate(b.date), "T" + ta, "T" + tb);
    BelowConcat(IsoDate(a.date), IsoDate(b.date), "T" + ta, "");
    assert IsoDate(b.date) + "" == IsoDate(b.date);
    FieldsTotal(a.date, b.date);
    FieldsTotal(b.date, a.date);
    if a.date != b.date && IsoDate(a.date) == IsoDate(b.date) {
      BelowIrreflexive(IsoDate(a.date));
    }
  }
}
