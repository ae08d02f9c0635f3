/**
 * The hex colour picker (`components/color-picker.tsx`): a saturation/value canvas,
 * a hue slider and a hex text field, kept in step through the conversions
 * `hexToHsv` and `hsvToHex`. Every pick is reported through `onChange`, modelled as
 * the colour a handler returns.
 */
module ColorPicker {
  import opened Wrappers
  import Text
  import JsNumber

  datatype Hsv = Hsv(h: real, s: real, v: real)

  // ---------------------------------------------------------------- the hex field

  /** `if (!hex.startsWith("#")) hex = "#" + hex` */
  function WithHash(input: string): (hex: string)
    ensures |hex| > 0 && hex[0] == '#'
    ensures hex == input || hex == "#" + input
  {
    if |input| > 0 && input[0] == '#' then input else "#" + input
  }

  /** Adding the `#` once is enough: a second pass changes nothing. */
  lemma WithHashIdempotent(input: string)
    ensures WithHash(WithHash(input)) == WithHash(input)
  {
  }

  /** `/^#([A-Fa-f0-9]{6}|[A-Fa-f0-9]{3})$/.test(hex)` */
  predicate IsValidHexColor(hex: string)
  {
    (|hex| == 7 || |hex| == 4) && hex[0] == '#' && Text.AllHex(hex[1..])
  }

  // ---------------------------------------------------------------- hexToHsv

  /** `hex.replace(/^#/, "")` */
  function StripHash(hex: string): string
  {
    if |hex| > 0 && hex[0] == '#' then hex[1..] else hex
  }

  /** Three digits `rgb` stand for `rrggbb`; any other length is left alone. */
  function ExpandShort(hex: string): (e: string)
    ensures |hex| == 3 ==> |e| == 6 && forall i :: 0 <= i < 6 ==> e[i] == hex[i / 2]
    ensures |hex| != 3 ==> e == hex
  {
    if |hex| == 3 then [hex[0], hex[0], hex[1], hex[1], hex[2], hex[2]] else hex
  }

  /** `s.substring(i, j)` for `i <= j`: indexes past the end are cut back to the length. */
  function Substring(s: string, i: nat, j: nat): (r: string)
    requires i <= j
    ensures |r| <= j - i
    ensures j <= |s| ==> r == s[i..j]
  {
    var b := if j <= |s| then j else |s|;
    var a := if i <= b then i else b;
    s[a..b]
  }

  /** `Number.parseInt(hex.substring(i, i + 2), 16)` */
  function Channel(hex: string, i: nat): Option<int>
  {
    JsNumber.ParseInt(Substring(hex, i, i + 2), true)
  }

  /** The HSV of three 8-bit channels: hue in whole degrees, saturation and value in [0, 1]. */
  function ChannelsToHsv(red: int, green: int, blue: int): Hsv
  {
    var r := red as real / 255.0;
    var g := green as real / 255.0;
    var b := blue as real / 255.0;
    var max := JsNumber.Max3(r, g, b);
    var min := JsNumber.Min3(r, g, b);
    var delta := max - min;
    var s := if max == 0.0 then 0.0 else delta / max;
    var h :=
      if delta == 0.0 then 0.0
      else if max == r then JsNumber.Rem((g - b) / delta, 6.0)
      else if max == g then (b - r) / delta + 2.0
      else (r - g) / delta + 4.0;
    var deg := JsNumber.Round(h * 60.0);
    Hsv((if deg < 0 then deg + 360 else deg) as real, s, max)
  }

  /** `hexToHsv`. `None` stands for the all-NaN result of a channel that does not parse. */
  function HexToHsv(hex: string): Option<Hsv>
  {
    var e := ExpandShort(StripHash(hex));
    var r := Channel(e, 0);
    var g := Channel(e, 2);
    var b := Channel(e, 4);
    if r.Some? && g.Some? && b.Some? then Some(ChannelsToHsv(r.value, g.value, b.value)) else None
  }

  lemma QuotientInUnit(a: real, d: real)
    requires d > 0.0 && -d <= a <= d
    ensures -1.0 <= a / d <= 1.0
  {
    var q := a / d;
    assert q * d == a;
    if q > 1.0 {
      JsNumber.MulStrict(1.0, q, d);
      assert false;
    }
    if q < -1.0 {
      JsNumber.NegMul(q, d);
      JsNumber.MulStrict(1.0, -q, d);
      assert false;
    }
  }

  lemma RatioInUnit(a: real, d: real)
    requires d > 0.0 && 0.0 <= a <= d
    ensures 0.0 <= a / d <= 1.0
    ensures a / d == 0.0 <==> a == 0.0
  {
    QuotientInUnit(a, d);
    var q := a / d;
    assert q * d == a;
    if q < 0.0 {
      JsNumber.NegMul(q, d);
      JsNumber.MulStrict(0.0, -q, d);
      assert false;
    }
  }

  /** For 8-bit channels the hue is a whole number of degrees in [0, 360), saturation and
      value lie in [0, 1], the value is the largest channel, and the saturation is zero
      exactly for greys. */
  lemma ChannelsToHsvRange(red: int, green: int, blue: int)
    requires 0 <= red <= 255 && 0 <= green <= 255 && 0 <= blue <= 255
    ensures var c := ChannelsToHsv(red, green, blue);
      0.0 <= c.h < 360.0 && c.h == c.h.Floor as real
      && 0.0 <= c.s <= 1.0 && 0.0 <= c.v <= 1.0
      && c.v * 255.0 >= red as real && c.v * 255.0 >= green as real && c.v * 255.0 >= blue as real
      && (c.v * 255.0 == red as real || c.v * 255.0 == green as real || c.v * 255.0 == blue as real)
      && (c.s == 0.0 <==> red == green && green == blue)
  {
    var r := red as real / 255.0;
    var g := green as real / 255.0;
    var b := blue as real / 255.0;
    var max := JsNumber.Max3(r, g, b);
    var min := JsNumber.Min3(r, g, b);
    var delta := max - min;
    if max != 0.0 {
      RatioInUnit(delta, max);
    }
    var h :=
      if delta == 0.0 then 0.0
      else if max == r then JsNumber.Rem((g - b) / delta, 6.0)
      else if max == g then (b - r) / delta + 2.0
      else (r - g) / delta + 4.0;
    if delta != 0.0 {
      if max == r {
        QuotientInUnit(g - b, delta);
        JsNumber.RemSmall((g - b) / delta, 6.0);
        JsNumber.RoundWithin(h * 60.0, -60, 60);
      } else if max == g {
        QuotientInUnit(b - r, delta);
        JsNumber.RoundWithin(h * 60.0, 60, 180);
      } else {
        QuotientInUnit(r - g, delta);
        JsNumber.RoundWithin(h * 60.0, 180, 300);
      }
    }
  }

  /** A valid hex colour always parses, to three channels in [0, 255]. */
  lemma ValidHexParses(hex: string)
    requires IsValidHexColor(hex)
    ensures HexToHsv(hex).Some?
    ensures exists red, green, blue ::
              0 <= red <= 255 && 0 <= green <= 255 && 0 <= blue <= 255
              && HexToHsv(hex) == Some(ChannelsToHsv(red, green, blue))
  {
    var e := ExpandShort(StripHash(hex));
    assert StripHash(hex) == hex[1..];
    assert |e| == 6 && Text.AllHex(e) by {
      if |hex| == 4 {
        forall i | 0 <= i < 6 ensures Text.IsHexDigit(e[i]) {
          assert e[i] == hex[1..][i / 2];
        }
      }
    }
    var red := ChannelDigits(e, 0);
    var green := ChannelDigits(e, 2);
    var blue := ChannelDigits(e, 4);
    assert HexToHsv(hex) == Some(ChannelsToHsv(red, green, blue));
  }

  lemma ChannelDigits(e: string, i: nat) returns (v: int)
    requires |e| == 6 && Text.AllHex(e) && i <= 4
    ensures 0 <= v <= 255 && Channel(e, i) == Some(v)
  {
    var d := e[i..i + 2];
    assert Text.AllHex(d);
    JsNumber.ParseHexDigits(d);
    Text.HexValueBound(d);
    assert Text.Pow16(2) == 256;
    v := Text.HexValue(d);
  }

  /** `#rgb` converts exactly as `#rrggbb` does. */
  lemma ShortFormIsLongForm(hex: string)
    requires IsValidHexColor(hex) && |hex| == 4
    ensures HexToHsv(hex) == HexToHsv(['#', hex[1], hex[1], hex[2], hex[2], hex[3], hex[3]])
  {
    var long := ['#', hex[1], hex[1], hex[2], hex[2], hex[3], hex[3]];
    assert StripHash(hex) == hex[1..];
    assert StripHash(long) == long[1..];
    assert ExpandShort(StripHash(hex)) == ExpandShort(StripHash(long));
  }

  // ---------------------------------------------------------------- hsvToHex

  /** The six 60-degree sectors of the hue circle; a hue outside [0, 300) falls in the last. */
  function Sector(h: real, c: real, x: real): (real, real, real)
  {
    if 0.0 <= h < 60.0 then (c, x, 0.0)
    else if 60.0 <= h < 120.0 then (x, c, 0.0)
    else if 120.0 <= h < 180.0 then (0.0, c, x)
    else if 180.0 <= h < 240.0 then (0.0, x, c)
    else if 240.0 <= h < 300.0 then (x, 0.0, c)
    else (c, 0.0, x)
  }

  /** The three rounded channels `hsvToHex` prints, for a hue already reduced by `h % 360`. */
  function ReducedHueChannels(h: real, s: real, v: real): (int, int, int)
  {
    var c := v * s;
    Bytes(Sector(h, c, Secondary(h, c)), v - c)
  }

  /** The second-largest channel before mixing, `c * (1 - |(h / 60) % 2 - 1|)`. */
  function Secondary(h: real, c: real): real
  {
    c * (1.0 - JsNumber.Abs(JsNumber.Rem(h / 60.0, 2.0) - 1.0))
  }

  /** The three rounded channels `hsvToHex` prints. */
  function HsvToChannels(h: real, s: real, v: real): (int, int, int)
  {
    ReducedHueChannels(JsNumber.Rem(h, 360.0), s, v)
  }

  /** `toHex`: `c.toString(16)`, padded to two digits when it has one. */
  function ToHex(n: int): string
  {
    var hex := JsNumber.ToString16(n);
    if |hex| == 1 then "0" + hex else hex
  }

  /** `hsvToHex` */
  function HsvToHex(h: real, s: real, v: real): string
  {
    var rgb := HsvToChannels(h, s, v);
    "#" + ToHex(rgb.0) + ToHex(rgb.1) + ToHex(rgb.2)
  }

  /** A channel in [0, 255] prints as two lower-case digits that read back to it. */
  lemma ToHexByte(n: int)
    requires 0 <= n <= 255
    ensures |ToHex(n)| == 2 && Text.AllLowerHex(ToHex(n)) && Text.AllHex(ToHex(n))
    ensures Text.HexValue(ToHex(n)) == n
  {
    Text.HexRoundTrip(n);
    var hex := Text.NatToHex(n);
    if n < 16 {
      assert ToHex(n) == "0" + hex;
      Text.HexValueConcat("0", hex);
      assert Text.HexValue("0") == Text.HexValue("") * 16 + 0;
    }
  }

  lemma MulInUnit(c: real, t: real)
    requires 0.0 <= c && 0.0 <= t <= 1.0
    ensures 0.0 <= c * t <= c
  {
    JsNumber.MulLeMono(t, 1.0, c);
  }

  lemma SectorInUnit(h: real, c: real, x: real, m: real)
    requires 0.0 <= x <= c && 0.0 <= m && c + m <= 1.0
    ensures var rgb := Sector(h, c, x);
      0.0 <= rgb.0 + m <= 1.0 && 0.0 <= rgb.1 + m <= 1.0 && 0.0 <= rgb.2 + m <= 1.0
  {
  }

  lemma ByteOfUnit(a: real)
    requires 0.0 <= a <= 1.0
    ensures 0 <= JsNumber.Round(a * 255.0) <= 255
  {
    JsNumber.RoundWithin(a * 255.0, 0, 255);
  }

  /** Each mixed channel in [0, 1], scaled to 255 and rounded. */
  function Bytes(rgb: (real, real, real), m: real): (int, int, int)
  {
    (JsNumber.Round((rgb.0 + m) * 255.0), JsNumber.Round((rgb.1 + m) * 255.0), JsNumber.Round((rgb.2 + m) * 255.0))
  }

  lemma BytesInRange(rgb: (real, real, real), m: real)
    requires 0.0 <= rgb.0 + m <= 1.0 && 0.0 <= rgb.1 + m <= 1.0 && 0.0 <= rgb.2 + m <= 1.0
    ensures var b := Bytes(rgb, m); 0 <= b.0 <= 255 && 0 <= b.1 <= 255 && 0 <= b.2 <= 255
  {
    ByteOfUnit(rgb.0 + m);
    ByteOfUnit(rgb.1 + m);
    ByteOfUnit(rgb.2 + m);
  }

  lemma SectorBytes(h: real, c: real, x: real, m: real)
    requires 0.0 <= x <= c && 0.0 <= m && c + m <= 1.0
    ensures var b := Bytes(Sector(h, c, x), m); 0 <= b.0 <= 255 && 0 <= b.1 <= 255 && 0 <= b.2 <= 255
  {
    SectorInUnit(h, c, x, m);
    BytesInRange(Sector(h, c, x), m);
  }

  lemma SecondaryInChroma(h: real, c: real)
    requires 0.0 <= h && 0.0 <= c
    ensures 0.0 <= Secondary(h, c) <= c
  {
    JsNumber.RemRange(h / 60.0, 2.0);
    var t := 1.0 - JsNumber.Abs(JsNumber.Rem(h / 60.0, 2.0) - 1.0);
    assert 0.0 <= t <= 1.0;
    MulInUnit(c, t);
  }

  lemma ReducedChannelsInRange(h: real, s: real, v: real)
    requires 0.0 <= h && 0.0 <= s <= 1.0 && 0.0 <= v <= 1.0
    ensures var rgb := ReducedHueChannels(h, s, v);
      0 <= rgb.0 <= 255 && 0 <= rgb.1 <= 255 && 0 <= rgb.2 <= 255
  {
    var c := v * s;
    MulInUnit(v, s);
    SecondaryInChroma(h, c);
    SectorBytes(h, c, Secondary(h, c), v - c);
  }

  /** For a hue that is not negative and saturation and value in [0, 1], every channel
      lies in [0, 255]. */
  lemma ChannelsInRange(h: real, s: real, v: real)
    requires 0.0 <= h && 0.0 <= s <= 1.0 && 0.0 <= v <= 1.0
    ensures var rgb := HsvToChannels(h, s, v);
      0 <= rgb.0 <= 255 && 0 <= rgb.1 <= 255 && 0 <= rgb.2 <= 255
  {
    JsNumber.RemRange(h, 360.0);
    ReducedChannelsInRange(JsNumber.Rem(h, 360.0), s, v);
  }

  /** The picker only ever emits `#rrggbb` in lower case, which its own hex field accepts,
      and the digits read back to the channels. */
  lemma HsvToHexIsValid(h: real, s: real, v: real)
    requires 0.0 <= h && 0.0 <= s <= 1.0 && 0.0 <= v <= 1.0
    ensures var hex := HsvToHex(h, s, v);
      IsValidHexColor(hex) && |hex| == 7 && Text.AllLowerHex(hex[1..])
      && Text.HexValue(hex[1..3]) == HsvToChannels(h, s, v).0
      && Text.HexValue(hex[3..5]) == HsvToChannels(h, s, v).1
      && Text.HexValue(hex[5..7]) == HsvToChannels(h, s, v).2
  {
    var rgb := HsvToChannels(h, s, v);
    ChannelsInRange(h, s, v);
    ToHexByte(rgb.0);
    ToHexByte(rgb.1);
    ToHexByte(rgb.2);
    var hex := HsvToHex(h, s, v);
    assert hex[1..3] == ToHex(rgb.0);
    assert hex[3..5] == ToHex(rgb.1);
    assert hex[5..7] == ToHex(rgb.2);
    assert hex[1..] == ToHex(rgb.0) + ToHex(rgb.1) + ToHex(rgb.2);
  }

  /** Hue is periodic: a full turn more gives the same colour (hue 360 at the right end
      of the slider is the red of hue 0). */
  lemma HueWrapsAround(h: real, s: real, v: real)
    requires 0.0 <= h
    ensures HsvToHex(h + 360.0, s, v) == HsvToHex(h, s, v)
  {
    JsNumber.RemPeriodic(h, 360.0);
  }

  /** With no saturation every channel is the same: a grey. */
  lemma NoSaturationIsGrey(h: real, v: real)
    ensures var rgb := HsvToChannels(h, 0.0, v); rgb.0 == rgb.1 == rgb.2
  {
  }

  /** Full saturation and value at hues 0, 120 and 240 give the primaries. */
  lemma Red()
    ensures HsvToHex(0.0, 1.0, 1.0) == "#ff0000"
  {
    assert JsNumber.Rem(0.0, 360.0) == 0.0;
    assert JsNumber.Rem(0.0, 2.0) == 0.0;
    assert ReducedHueChannels(0.0, 1.0, 1.0) == (255, 0, 0);
    ZeroAndFull();
  }

  lemma Green()
    ensures HsvToHex(120.0, 1.0, 1.0) == "#00ff00"
  {
    JsNumber.RemSmall(120.0, 360.0);
    assert JsNumber.Rem(2.0, 2.0) == 0.0 by { assert 2.0 / 2.0 == 1.0; }
    assert ReducedHueChannels(120.0, 1.0, 1.0) == (0, 255, 0);
    ZeroAndFull();
  }

  lemma Blue()
    ensures HsvToHex(240.0, 1.0, 1.0) == "#0000ff"
  {
    JsNumber.RemSmall(240.0, 360.0);
    assert JsNumber.Rem(4.0, 2.0) == 0.0 by { assert 4.0 / 2.0 == 2.0; }
    assert ReducedHueChannels(240.0, 1.0, 1.0) == (0, 0, 255);
    ZeroAndFull();
  }

  lemma BlueParses()
    ensures HexToHsv("#0000ff") == Some(ChannelsToHsv(0, 0, 255))
  {
    var e := ExpandShort(StripHash("#0000ff"));
    assert e == "0000ff";
    assert Substring(e, 0, 2) == "00" && Substring(e, 2, 4) == "00" && Substring(e, 4, 6) == "ff";
    JsNumber.ParseHexDigits("00");
    JsNumber.ParseHexDigits("ff");
    assert Text.HexValue("00") == 0 by { assert "00"[..1] == "0"; }
    assert Text.HexValue("ff") == 255 by { assert "ff"[..1] == "f"; }
  }

  lemma BlueHsv()
    ensures ChannelsToHsv(0, 0, 255) == Hsv(240.0, 1.0, 1.0)
  {
    assert 255 as real / 255.0 == 1.0;
    assert 0 as real / 255.0 == 0.0;
    assert (0.0 - 0.0) / 1.0 + 4.0 == 4.0;
    assert 1.0 / 1.0 == 1.0;
  }

  /** Pure blue reads back as hue 240 at full saturation and value. */
  lemma BlueReadsBack()
    ensures HexToHsv("#0000ff") == Some(Hsv(240.0, 1.0, 1.0))
  {
    BlueParses();
    BlueHsv();
  }

  lemma ZeroAndFull()
    ensures ToHex(0) == "00" && ToHex(255) == "ff"
  {
    assert Text.NatToHex(0) == "0";
    assert Text.NatToHex(15) == "f";
    assert Text.NatToHex(255) == Text.NatToHex(15) + "f";
  }

  // ---------------------------------------------------------------- the component

  /** `HexColorPicker`'s state. */
  class HexColorPicker {
    var internalColor: string
    var isDragging: bool
    var hue: real
    var saturation: real
    var value: real

    /** The hue of the first render. `handleCanvasMouseDown` is memoised with no
        dependencies, so it keeps calling the first render's `handleCanvasMouseMove`,
        which reads this hue. */
    const firstRenderHue: real

    /** The first render: the text field shows the `color` prop, HSV starts at red. */
    constructor (color: string)
      ensures internalColor == color && !isDragging
      ensures hue == 0.0 && saturation == 1.0 && value == 1.0 && firstRenderHue == 0.0
    {
      internalColor := color;
      isDragging := false;
      hue := 0.0;
      saturation := 1.0;
      value := 1.0;
      firstRenderHue := 0.0;
    }

    /** The effect on `[color]`: HSV follows the prop; the text field does not. */
    method SyncWithProp(color: string)
      requires HexToHsv(color).Some?
      modifies this
      ensures Hsv(hue, saturation, value) == HexToHsv(color).value
      ensures internalColor == old(internalColor) && isDragging == old(isDragging)
    {
      var hsv := HexToHsv(color).value;
      hue, saturation, value := hsv.h, hsv.s, hsv.v;
    }

    /** `handleHexChange`: the field always shows the text (with a `#` in front); only a
        valid colour is reported and moves HSV. */
    method HandleHexChange(input: string) returns (emitted: Option<string>)
      modifies this
      ensures internalColor == WithHash(input)
      ensures emitted.Some? <==> IsValidHexColor(WithHash(input))
      ensures emitted.Some? ==>
                emitted.value == internalColor && HexToHsv(emitted.value) == Some(Hsv(hue, saturation, value))
      ensures emitted.None? ==> hue == old(hue) && saturation == old(saturation) && value == old(value)
      ensures isDragging == old(isDragging)
    {
      var hex := WithHash(input);
      if IsValidHexColor(hex) {
        internalColor := hex;
        emitted := Some(hex);
        ValidHexParses(hex);
        var hsv := HexToHsv(hex).value;
        hue, saturation, value := hsv.h, hsv.s, hsv.v;
      } else {
        internalColor := hex;
        emitted := None;
      }
    }

    /** `handleCanvasMouseDown` as written: dragging starts, saturation and value follow
        the pointer (clamped to [0, 1]), and the colour reported uses the first render's hue. */
    method CanvasMouseDownAsWritten(s: real, v: real) returns (emitted: string)
      modifies this
      ensures isDragging && hue == old(hue)
      ensures saturation == JsNumber.Clamp(0.0, 1.0, s) && value == JsNumber.Clamp(0.0, 1.0, v)
      ensures emitted == HsvToHex(firstRenderHue, saturation, value) && internalColor == emitted
    {
      isDragging := true;
      saturation := JsNumber.Clamp(0.0, 1.0, s);
      value := JsNumber.Clamp(0.0, 1.0, v);
      emitted := HsvToHex(firstRenderHue, saturation, value);
      internalColor := emitted;
    }

    /** `handleCanvasMouseDown` as intended: the colour reported is the one the picker now
        holds, with the current hue. */
    method CanvasMouseDown(s: real, v: real) returns (emitted: string)
      modifies this
      ensures isDragging && hue == old(hue)
      ensures saturation == JsNumber.Clamp(0.0, 1.0, s) && value == JsNumber.Clamp(0.0, 1.0, v)
      ensures emitted == HsvToHex(hue, saturation, value) && internalColor == emitted
    {
      isDragging := true;
      emitted := CanvasMouseMove(s, v, true);
    }

    /** `handleCanvasMouseMove`: ignored unless dragging (or called for the mouse-down). */
    method CanvasMouseMove(s: real, v: real, isMouseDown: bool) returns (emitted: string)
      modifies this
      ensures hue == old(hue) && isDragging == old(isDragging)
      ensures !old(isDragging) && !isMouseDown ==>
        saturation == old(saturation) && value == old(value) && internalColor == old(internalColor)
        && emitted == ""
      ensures old(isDragging) || isMouseDown ==>
        saturation == JsNumber.Clamp(0.0, 1.0, s) && value == JsNumber.Clamp(0.0, 1.0, v)
        && emitted == HsvToHex(hue, saturation, value) && internalColor == emitted
    {
      if !isDragging && !isMouseDown {
        return "";
      }
      saturation := JsNumber.Clamp(0.0, 1.0, s);
      value := JsNumber.Clamp(0.0, 1.0, v);
      emitted := HsvToHex(hue, saturation, value);
      internalColor := emitted;
    }

    /** `handleSliderMouseDown`: the hue follows the pointer (clamped to [0, 360]). */
    method SliderMouseDown(h: real) returns (emitted: string)
      modifies this
      ensures hue == JsNumber.Clamp(0.0, 360.0, h)
      ensures saturation == old(saturation) && value == old(value) && isDragging == old(isDragging)
      ensures emitted == HsvToHex(hue, saturation, value) && internalColor == emitted
    {
      hue := JsNumber.Clamp(0.0, 360.0, h);
      emitted := HsvToHex(hue, saturation, value);
      internalColor := emitted;
    }

    /** The window's `mouseup` listener. */
    method MouseUp()
      modifies this
      ensures !isDragging
      ensures internalColor == old(internalColor) && hue == old(hue)
      ensures saturation == old(saturation) && value == old(value)
    {
      isDragging := false;
    }
  }

  /** With the picker on pure blue, a click at the full-saturation, full-value corner
      reports red as written; the intended handler reports blue. */
  method StaleHueScenario() returns (asWritten: string, intended: string)
    ensures asWritten == "#ff0000" && intended == "#0000ff"
  {
    Blue();
    Red();
    BlueReadsBack();
    var picker := new HexColorPicker("#0000ff");
    picker.SyncWithProp("#0000ff");
    asWritten := picker.CanvasMouseDownAsWritten(1.0, 1.0);
    var fixed := new HexColorPicker("#0000ff");
    fixed.SyncWithProp("#0000ff");
    intended := fixed.CanvasMouseDown(1.0, 1.0);
  }
}
