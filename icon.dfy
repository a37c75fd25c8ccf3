/** The battery glyph batquery prints before the percentage with `-i`:
    one of twelve Nerd Font "md-battery" icons. */
module Icon {

  /** The icons, named after their Nerd Font names. */
  datatype Glyph =
    | BatteryCharging
    | Battery
    | Battery90 | Battery80 | Battery70 | Battery60 | Battery50
    | Battery40 | Battery30 | Battery20 | Battery10
    | BatteryAlert

  /** The Unicode code point of each icon, in the Nerd Font private use area. */
  function CodePoint(g: Glyph): (cp: int)
    ensures 0xF0079 <= cp <= 0xF0084
  {
    match g
    case BatteryCharging => 0xF0084
    case Battery => 0xF0079
    case Battery90 => 0xF0082
    case Battery80 => 0xF0081
    case Battery70 => 0xF0080
    case Battery60 => 0xF007F
    case Battery50 => 0xF007E
    case Battery40 => 0xF007D
    case Battery30 => 0xF007C
    case Battery20 => 0xF007B
    case Battery10 => 0xF007A
    case BatteryAlert => 0xF0083
  }

  /** The icon as the one character it is printed as. */
  function GlyphChar(g: Glyph): (c: char)
    ensures c as int == CodePoint(g)
  {
    CodePoint(g) as char
  }

  /** How full the icon shows the battery, in percent; the charging icon
      shows no level. */
  function Fill(g: Glyph): (f: int)
    ensures g != BatteryCharging ==> 0 <= f <= 100 && f % 10 == 0
  {
    match g
    case BatteryCharging => -1
    case Battery => 100
    case Battery90 => 90
    case Battery80 => 80
    case Battery70 => 70
    case Battery60 => 60
    case Battery50 => 50
    case Battery40 => 40
    case Battery30 => 30
    case Battery20 => 20
    case Battery10 => 10
    case BatteryAlert => 0
  }

  /** The if-else ladder of main's percent mode: charging first, then the
      bands from the top down, so the first threshold met wins. */
  function SelectIcon(percent: int, charging: bool): Glyph {
    if charging then BatteryCharging
    else if percent >= 100 then Battery
    else if percent >= 90 then Battery90
    else if percent >= 80 then Battery80
    else if percent >= 70 then Battery70
    else if percent >= 60 then Battery60
    else if percent >= 50 then Battery50
    else if percent >= 40 then Battery40
    else if percent >= 30 then Battery30
    else if percent >= 20 then Battery20
    else if percent >= 10 then Battery10
    else BatteryAlert
  }

  /** The percentage rounded down to a multiple of ten, kept within 0..100. */
  function Band(percent: int): (b: int)
    ensures 0 <= b <= 100 && b % 10 == 0
  {
    if percent >= 100 then 100
    else if percent < 0 then 0
    else percent / 10 * 10
  }

  /** Charging wins over any percentage. */
  lemma ChargingWins(percent: int)
    ensures SelectIcon(percent, true) == BatteryCharging
    ensures CodePoint(SelectIcon(percent, true)) == 0xF0084
  {
  }

  /** Off the charger the icon shows the percentage's band: a multiple of
      ten at most the percentage, and the largest one (up to 100). */
  lemma SelectIconShowsBand(percent: int)
    ensures SelectIcon(percent, false) != BatteryCharging
    ensures Fill(SelectIcon(percent, false)) == Band(percent)
    ensures 0 <= percent ==> Fill(SelectIcon(percent, false)) <= percent
    ensures percent < 100 ==> percent < Fill(SelectIcon(percent, false)) + 10
  {
    if 10 <= percent < 100 {
      var t := percent / 10;
      assert 1 <= t <= 9;
      assert t * 10 <= percent < t * 10 + 10;
    }
  }

  /** A fuller battery never shows an emptier icon. */
  lemma SelectIconMonotone(p: int, q: int)
    requires p <= q
    ensures Fill(SelectIcon(p, false)) <= Fill(SelectIcon(q, false))
  {
    SelectIconShowsBand(p);
    SelectIconShowsBand(q);
    if 0 <= p && q < 100 {
      assert p / 10 <= q / 10;
    }
  }

  /** Distinct icons print as distinct characters. */
  lemma GlyphCharInjective(g: Glyph, h: Glyph)
    requires g != h
    ensures GlyphChar(g) != GlyphChar(h)
  {
  }

  /** The thresholds are inclusive: 90 shows the 90 icon, 89 the 80 one, and
      anything under 10, negative values included, the alert icon. */
  lemma Thresholds()
    ensures SelectIcon(100, false) == Battery && SelectIcon(250, false) == Battery
    ensures SelectIcon(99, false) == Battery90 && SelectIcon(90, false) == Battery90
    ensures SelectIcon(89, false) == Battery80 && SelectIcon(10, false) == Battery10
    ensures SelectIcon(9, false) == BatteryAlert && SelectIcon(-5, false) == BatteryAlert
  {
  }
}
