/** The legend: one entry per coloured route, in the key order of the
    colour map, with the icon file named after the route's colour. */
module Legends {
  import opened Buses
  import opened Allocation

  datatype LegendEntry = LegendEntry(name: Route, icon: string)

  predicate IsDigit(c: char)
  {
    '0' <= c <= '9'
  }

  predicate AllDigits(s: string)
  {
    forall i :: 0 <= i < |s| ==> IsDigit(s[i])
  }

  function DigitChar(d: nat): (c: char)
    requires d < 10
    ensures IsDigit(c)
  {
    ('0' as int + d) as char
  }

  function DigitValue(c: char): (d: nat)
    requires IsDigit(c)
    ensures d < 10
  {
    c as int - '0' as int
  }

  /** A non-negative integer interpolated into a template string: its
      decimal digits, with no leading zero. */
  function Decimal(n: nat): (s: string)
    ensures |s| >= 1 && AllDigits(s)
    ensures s[0] == '0' ==> n == 0
    decreases n
  {
    if n < 10 then [DigitChar(n)] else Decimal(n / 10) + [DigitChar(n % 10)]
  }

  function ParseDecimal(s: string): nat
    requires AllDigits(s)
    decreases |s|
  {
    if s == [] then 0 else 10 * ParseDecimal(s[..|s| - 1]) + DigitValue(s[|s| - 1])
  }

  /** The digits of a colour give the colour back. */
  lemma {:induction false} DecimalRoundTrip(n: nat)
    ensures ParseDecimal(Decimal(n)) == n
    decreases n
  {
    if n >= 10 {
      DecimalRoundTrip(n / 10);
      var s := Decimal(n);
      assert s[..|s| - 1] == Decimal(n / 10);
    }
  }

  /** The icon file of a colour: `${color}.ico`. */
  function Icon(color: nat): string
  {
    Decimal(color) + ".ico"
  }

  /** The colour an icon file name stands for, if it is one. */
  function IconColor(icon: string): Option<nat>
  {
    if |icon| > 4 && icon[|icon| - 4..] == ".ico" && AllDigits(icon[..|icon| - 4])
    then Some(ParseDecimal(icon[..|icon| - 4]))
    else None
  }

  lemma IconRoundTrip(color: nat)
    ensures IconColor(Icon(color)) == Some(color)
  {
    var icon := Icon(color);
    assert icon[..|icon| - 4] == Decimal(color);
    assert icon[|icon| - 4..] == ".ico";
    DecimalRoundTrip(color);
  }

  /** Different colours have different icons. */
  lemma IconInjective(a: nat, b: nat)
    requires Icon(a) == Icon(b)
    ensures a == b
  {
    IconRoundTrip(a);
    IconRoundTrip(b);
  }

  /** The legend of a colour map: one entry per key, in key order, whose
      icon names the key's colour. */
  function Legend(keys: seq<Route>, colors: map<Route, nat>): (entries: seq<LegendEntry>)
    requires forall r :: r in keys ==> r in colors
    ensures |entries| == |keys|
    ensures forall i :: 0 <= i < |keys| ==> entries[i].name == keys[i] && IconColor(entries[i].icon) == Some(colors[keys[i]])
  {
    var entries := seq(|keys|, i requires 0 <= i < |keys| => LegendEntry(keys[i], Icon(colors[keys[i]])));
    assert forall i :: 0 <= i < |keys| ==> IconColor(entries[i].icon) == Some(colors[keys[i]]) by {
      forall i | 0 <= i < |keys| {
        IconRoundTrip(colors[keys[i]]);
      }
    }
    entries
  }

  /** Under the allocator's invariant the legend lists every mapped route
      once, in first-seen order, the i-th with icon `${i + 1}.ico`, and no
      two entries share a route or an icon. */
  lemma LegendOfConsistent(colors: map<Route, nat>, keys: seq<Route>, next: nat)
    requires Consistent(colors, keys, next)
    ensures |Legend(keys, colors)| == |colors|
    ensures forall i :: 0 <= i < |keys| ==> Legend(keys, colors)[i] == LegendEntry(keys[i], Icon(i + 1))
    ensures forall i, j :: 0 <= i < j < |keys| ==>
      Legend(keys, colors)[i].name != Legend(keys, colors)[j].name &&
      Legend(keys, colors)[i].icon != Legend(keys, colors)[j].icon
  {
    ConsistentGapless(colors, keys, next);
    var l := Legend(keys, colors);
    forall i | 0 <= i < |keys|
      ensures l[i] == LegendEntry(keys[i], Icon(i + 1))
    {
      IconRoundTrip(i + 1);
    }
  }
}
