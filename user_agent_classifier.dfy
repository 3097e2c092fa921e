/**
 * The lightweight user-agent classification a new `user_agents` row is filled
 * with: three first-match-wins chains of substring tests over the lower-cased
 * user-agent string, one each for the operating system, the browser and the
 * device type, each with a default.
 */
module UserAgentClassifier {

  datatype Os = Windows | MacOs | Linux | Android | Ios | UnknownOs
  datatype Browser = Chrome | Firefox | Safari | Edge | UnknownBrowser
  datatype Device = Mobile | Tablet | Desktop

  /** The text stored in the `os` column. */
  function OsLabel(os: Os): string
  {
    match os
    case Windows => "Windows"
    case MacOs => "macOS"
    case Linux => "Linux"
    case Android => "Android"
    case Ios => "iOS"
    case UnknownOs => "Unknown OS"
  }

  /** The text stored in the `browser` column. */
  function BrowserLabel(b: Browser): string
  {
    match b
    case Chrome => "Chrome"
    case Firefox => "Firefox"
    case Safari => "Safari"
    case Edge => "Edge"
    case UnknownBrowser => "Unknown Browser"
  }

  /** The text stored in the `device_type` column. */
  function DeviceLabel(d: Device): string
  {
    match d
    case Mobile => "Mobile"
    case Tablet => "Tablet"
    case Desktop => "Desktop"
  }

  /** Distinct classes are stored as distinct text. */
  lemma LabelsInjective(a: Os, b: Os, c: Browser, d: Browser, e: Device, f: Device)
    ensures OsLabel(a) == OsLabel(b) ==> a == b
    ensures BrowserLabel(c) == BrowserLabel(d) ==> c == d
    ensures DeviceLabel(e) == DeviceLabel(f) ==> e == f
  {
  }

  // ---------------------------------------------------------------------------
  // Lower-casing
  // ---------------------------------------------------------------------------

  predicate IsAsciiUpper(c: char) { 'A' <= c <= 'Z' }

  /**
   * The lower-case form of one character, as far as it can matter to a test for
   * an ASCII substring: ASCII capitals, the capital I with dot above (which lower-cases
   * to `i` followed by a combining dot) and the Kelvin sign (which lower-cases to `k`).
   * Every other character is kept: its lower-case form is never an ASCII letter.
   */
  function LowerChar(c: char): (s: string)
    ensures 1 <= |s| <= 2
  {
    if IsAsciiUpper(c) then [(c as int + 32) as char]
    else if c == '\U{0130}' then ['i', '\U{0307}']
    else if c == '\U{212A}' then ['k']
    else [c]
  }

  /** The lower-cased string. */
  function Lower(s: string): (r: string)
    ensures |s| <= |r| <= 2 * |s|
  {
    if |s| == 0 then [] else LowerChar(s[0]) + Lower(s[1..])
  }

  /** No character of a lower-cased string changes when lower-cased again. */
  predicate IsLower(s: string)
  {
    forall i :: 0 <= i < |s| ==> LowerChar(s[i]) == [s[i]]
  }

  lemma {:induction false} LowerIsLower(s: string)
    ensures IsLower(Lower(s))
  {
    if |s| > 0 {
      LowerIsLower(s[1..]);
      var h, t := LowerChar(s[0]), Lower(s[1..]);
      assert forall i :: 0 <= i < |h| ==> LowerChar(h[i]) == [h[i]];
      assert forall i :: |h| <= i < |h + t| ==> (h + t)[i] == t[i - |h|];
    }
  }

  /** Lower-casing leaves a string with no upper-case characters unchanged. */
  lemma {:induction false} LowerOfLower(s: string)
    requires IsLower(s)
    ensures Lower(s) == s
  {
    if |s| > 0 {
      assert IsLower(s[1..]) by {
        assert forall i :: 0 <= i < |s[1..]| ==> s[1..][i] == s[i + 1];
      }
      LowerOfLower(s[1..]);
      assert s == [s[0]] + s[1..];
    }
  }

  /** Lower-casing is idempotent. */
  lemma LowerIdempotent(s: string)
    ensures Lower(Lower(s)) == Lower(s)
  {
    LowerIsLower(s);
    LowerOfLower(Lower(s));
  }

  /** The ASCII upper-case form of a character, for stating case-insensitivity. */
  function UpperAscii(c: char): (u: char)
    ensures LowerChar(u) == LowerChar(c)
  {
    if 'a' <= c <= 'z' then (c as int - 32) as char else c
  }

  function UpperAsciiString(s: string): (u: string)
    ensures |u| == |s| && forall i :: 0 <= i < |s| ==> u[i] == UpperAscii(s[i])
  {
    seq(|s|, i requires 0 <= i < |s| => UpperAscii(s[i]))
  }

  /** Changing the ASCII case of any characters does not change the lower-cased string. */
  lemma {:induction false} LowerIgnoresCase(s: string, t: string)
    requires |s| == |t| && forall i :: 0 <= i < |s| ==> LowerChar(s[i]) == LowerChar(t[i])
    ensures Lower(s) == Lower(t)
  {
    if |s| > 0 {
      LowerIgnoresCase(s[1..], t[1..]);
    }
  }

  // ---------------------------------------------------------------------------
  // Substring tests
  // ---------------------------------------------------------------------------

  /** `needle` occurs in `s` at index `i`. */
  predicate OccursAt(s: string, needle: string, i: int)
  {
    0 <= i && i + |needle| <= |s| && s[i..i + |needle|] == needle
  }

  /** Python's `needle in s`, scanning `s` from the left. */
  function Contains(s: string, needle: string): (b: bool)
    decreases |s|
  {
    if |needle| <= |s| && s[..|needle|] == needle then true
    else if |s| == 0 then false
    else Contains(s[1..], needle)
  }

  /** An occurrence at a later position is an occurrence in the string without its first character. */
  lemma OccursLater(s: string, needle: string, i: int)
    requires 0 < i && OccursAt(s, needle, i)
    ensures OccursAt(s[1..], needle, i - 1)
  {
    assert s[1..][i - 1..i - 1 + |needle|] == s[i..i + |needle|];
  }

  /** The scan finds every occurrence. */
  lemma {:induction false} ContainsAt(s: string, needle: string, i: int)
    requires OccursAt(s, needle, i)
    ensures Contains(s, needle)
    decreases i
  {
    if i > 0 && !(s[..|needle|] == needle) {
      OccursLater(s, needle, i);
      ContainsAt(s[1..], needle, i - 1);
    }
  }

  /** `Contains` holds exactly when the needle occurs somewhere. */
  lemma {:induction false} ContainsIff(s: string, needle: string)
    ensures Contains(s, needle) <==> exists i :: OccursAt(s, needle, i)
    decreases |s|
  {
    if exists i :: OccursAt(s, needle, i) {
      var i :| OccursAt(s, needle, i);
      ContainsAt(s, needle, i);
    }
    if Contains(s, needle) {
      if |needle| <= |s| && s[..|needle|] == needle {
        assert OccursAt(s, needle, 0);
      } else {
        ContainsIff(s[1..], needle);
        var i :| OccursAt(s[1..], needle, i);
        assert s[i + 1..i + 1 + |needle|] == s[1..][i..i + |needle|];
        assert OccursAt(s, needle, i + 1);
      }
    }
  }

  /** A needle found in part of a string is found in the whole string. */
  lemma ContainsInConcat(a: string, b: string, needle: string)
    ensures Contains(a, needle) || Contains(b, needle) ==> Contains(a + b, needle)
  {
    ContainsIff(a, needle);
    ContainsIff(b, needle);
    ContainsIff(a + b, needle);
    if Contains(a, needle) {
      var i :| OccursAt(a, needle, i);
      assert (a + b)[i..i + |needle|] == a[i..i + |needle|];
      assert OccursAt(a + b, needle, i);
    } else if Contains(b, needle) {
      var i :| OccursAt(b, needle, i);
      assert (a + b)[|a| + i..|a| + i + |needle|] == b[i..i + |needle|];
      assert OccursAt(a + b, needle, |a| + i);
    }
  }

  /** A test on the lower-cased user agent. */
  predicate Has(ua: string, needle: string)
  {
    Contains(Lower(ua), needle)
  }

  // ---------------------------------------------------------------------------
  // The three chains
  // ---------------------------------------------------------------------------

  /** The operating system: the first test that succeeds wins, `Unknown OS` otherwise. */
  function OsOf(ua: string): (os: Os)
    ensures os == Windows <==> Has(ua, "windows")
    ensures os == MacOs <==> !Has(ua, "windows") && (Has(ua, "mac os") || Has(ua, "macintosh"))
    ensures os == Linux <==>
      !Has(ua, "windows") && !Has(ua, "mac os") && !Has(ua, "macintosh") && Has(ua, "linux")
    ensures os == Android <==>
      !Has(ua, "windows") && !Has(ua, "mac os") && !Has(ua, "macintosh") && !Has(ua, "linux")
      && Has(ua, "android")
    ensures os == Ios <==>
      !Has(ua, "windows") && !Has(ua, "mac os") && !Has(ua, "macintosh") && !Has(ua, "linux")
      && !Has(ua, "android") && (Has(ua, "iphone") || Has(ua, "ios"))
    ensures os == UnknownOs <==>
      !Has(ua, "windows") && !Has(ua, "mac os") && !Has(ua, "macintosh") && !Has(ua, "linux")
      && !Has(ua, "android") && !Has(ua, "iphone") && !Has(ua, "ios")
  {
    if Has(ua, "windows") then Windows
    else if Has(ua, "mac os") || Has(ua, "macintosh") then MacOs
    else if Has(ua, "linux") then Linux
    else if Has(ua, "android") then Android
    else if Has(ua, "iphone") || Has(ua, "ios") then Ios
    else UnknownOs
  }

  /** The browser: the first test that succeeds wins, `Unknown Browser` otherwise. */
  function BrowserOf(ua: string): (b: Browser)
    ensures b == Chrome <==> Has(ua, "chrome") && Has(ua, "safari")
    ensures b == Firefox <==> !(Has(ua, "chrome") && Has(ua, "safari")) && Has(ua, "firefox")
    ensures b == Safari <==> !Has(ua, "firefox") && Has(ua, "safari") && !Has(ua, "chrome")
    ensures b == Edge <==>
      !(Has(ua, "chrome") && Has(ua, "safari")) && !Has(ua, "firefox") && !Has(ua, "safari") && Has(ua, "edge")
    ensures b == UnknownBrowser <==>
      !(Has(ua, "chrome") && Has(ua, "safari")) && !Has(ua, "firefox") && !Has(ua, "safari") && !Has(ua, "edge")
  {
    if Has(ua, "chrome") && Has(ua, "safari") then Chrome
    else if Has(ua, "firefox") then Firefox
    else if Has(ua, "safari") && !Has(ua, "chrome") then Safari
    else if Has(ua, "edge") then Edge
    else UnknownBrowser
  }

  /** The device type: `Mobile`, then `Tablet`, `Desktop` otherwise. */
  function DeviceOf(ua: string): (d: Device)
    ensures d == Mobile <==> Has(ua, "mobile")
    ensures d == Tablet <==> !Has(ua, "mobile") && (Has(ua, "tablet") || Has(ua, "ipad"))
    ensures d == Desktop <==> !Has(ua, "mobile") && !Has(ua, "tablet") && !Has(ua, "ipad")
  {
    if Has(ua, "mobile") then Mobile
    else if Has(ua, "tablet") || Has(ua, "ipad") then Tablet
    else Desktop
  }

  /** A user agent naming both Linux and Android is classified as Linux. */
  lemma LinuxBeforeAndroid(ua: string)
    requires Has(ua, "linux") && Has(ua, "android") && !Has(ua, "windows")
    requires !Has(ua, "mac os") && !Has(ua, "macintosh")
    ensures OsOf(ua) == Linux
  {
  }

  /** A user agent naming both Mac OS and the iPhone is classified as macOS. */
  lemma MacBeforeIphone(ua: string)
    requires Has(ua, "mac os") && Has(ua, "iphone") && !Has(ua, "windows")
    ensures OsOf(ua) == MacOs
  {
  }

  /** A user agent naming Chrome and Safari is Chrome, whatever else it names. */
  lemma ChromeWithSafari(ua: string)
    requires Has(ua, "chrome") && Has(ua, "safari")
    ensures BrowserOf(ua) == Chrome
  {
  }

  /** Classification ignores the case of ASCII letters. */
  lemma ClassificationIgnoresCase(ua: string)
    ensures OsOf(UpperAsciiString(ua)) == OsOf(ua)
    ensures BrowserOf(UpperAsciiString(ua)) == BrowserOf(ua)
    ensures DeviceOf(UpperAsciiString(ua)) == DeviceOf(ua)
  {
    LowerIgnoresCase(UpperAsciiString(ua), ua);
  }

  /** Classifying the lower-cased user agent gives the same classes. */
  lemma ClassificationOfLower(ua: string)
    ensures OsOf(Lower(ua)) == OsOf(ua)
    ensures BrowserOf(Lower(ua)) == BrowserOf(ua)
    ensures DeviceOf(Lower(ua)) == DeviceOf(ua)
  {
    LowerIdempotent(ua);
  }
}
