/** StringUtils: character counting and classification over text. CharacterUtils is
    not part of this model; its three tests are taken to be the ASCII ranges their
    names say. Strings are ASCII, so lower-casing is ASCII lower-casing. */
module Strings {
  import opened Base

  predicate IsAlphaUpper(c: char) { 'A' <= c <= 'Z' }
  predicate IsAlphaLower(c: char) { 'a' <= c <= 'z' }
  predicate IsDigit(c: char) { '0' <= c <= '9' }

  /** How many times `c` occurs in `s`. */
  function Occurrences(s: string, c: char): nat {
    if s == [] then 0 else Occurrences(s[..|s| - 1], c) + (if s[|s| - 1] == c then 1 else 0)
  }

  /** indexOf(string, character, offset): the first position at which `offset`
      occurrences of the character lie before it, or the length of the string when no
      position has that many. */
  method IndexOf(s: string, c: char, offset: int) returns (position: nat)
    ensures position <= |s|
    ensures position < |s| ==> Occurrences(s[..position], c) == offset
    ensures forall p :: 0 <= p < position ==> Occurrences(s[..p], c) != offset
  {
    var i := 0;
    position := 0;
    while position < |s|
      invariant position <= |s| && i == Occurrences(s[..position], c)
      invariant forall p :: 0 <= p < position ==> Occurrences(s[..p], c) != offset
    {
      if i == offset {
        return;
      }
      if s[position] == c {
        i := i + 1;
      }
      assert s[..position + 1][..position] == s[..position];
      position := position + 1;
    }
  }

  /** For a positive offset, the position indexOf finds inside the string is just past
      an occurrence of the character: the offset-th one. */
  lemma IndexOfPastOccurrence(s: string, c: char, offset: int, position: nat)
    requires offset > 0 && position < |s|
    requires Occurrences(s[..position], c) == offset
    requires forall p :: 0 <= p < position ==> Occurrences(s[..p], c) != offset
    ensures position > 0 && s[position - 1] == c
  {
    assert position != 0 by {
      assert s[..0] == [];
    }
    assert s[..position][..position - 1] == s[..position - 1];
  }

  /** leadingSpaces(string): 0 for null; otherwise the number of spaces before the
      first other character. `charAt` past the end throws, so an empty or all-space
      string ends in StringIndexOutOfBoundsException. */
  method LeadingSpaces(s: Option<string>) returns (r: Result<nat>)
    ensures s.None? ==> r == Ok(0)
    ensures s.Some? ==> (r.Err? <==> forall i :: 0 <= i < |s.value| ==> s.value[i] == ' ')
    ensures r.Err? ==> r.error == IndexOutOfBounds
    ensures s.Some? && r.Ok? ==> r.value < |s.value| && s.value[r.value] != ' ' &&
                                 forall i :: 0 <= i < r.value ==> s.value[i] == ' '
  {
    if s.None? {
      return Ok(0);
    }
    var text := s.value;
    var length := 0;
    while true
      invariant length <= |text| && forall i :: 0 <= i < length ==> text[i] == ' '
      decreases |text| - length
    {
      if length >= |text| {
        return Err(IndexOutOfBounds);
      }
      if text[length] != ' ' {
        return Ok(length);
      }
      length := length + 1;
    }
  }

  /** A char of a byte-per-char string that does not start a UTF-8 sequence: a
      continuation byte 0x80 .. 0xbf. */
  predicate IsContinuation(c: char) { 0x80 <= c as int <= 0xbf }

  /** The number of characters of `s` that are not continuation bytes. */
  function CountLeading(s: string): nat {
    if s == [] then 0 else CountLeading(s[..|s| - 1]) + (if IsContinuation(s[|s| - 1]) then 0 else 1)
  }

  /** length(string): 0 for null, otherwise the characters outside 0x80 .. 0xbf. */
  method Length(s: Option<string>) returns (length: nat)
    ensures s.None? ==> length == 0
    ensures s.Some? ==> length == CountLeading(s.value)
  {
    length := 0;
    if s.Some? {
      var text := s.value;
      var k := 0;
      while k < |text|
        invariant k <= |text| && length == CountLeading(text[..k])
      {
        if !IsContinuation(text[k]) {
          length := length + 1;
        }
        assert text[..k + 1][..k] == text[..k];
        k := k + 1;
      }
      assert text[..|text|] == text;
    }
  }

  /** The count is additive, bounded by the number of chars, and equals it for ASCII. */
  lemma {:induction false} CountLeadingAppend(a: string, b: string)
    ensures CountLeading(a + b) == CountLeading(a) + CountLeading(b)
    decreases |b|
  {
    if b == [] {
      assert a + b == a;
    } else {
      assert (a + b)[..|a + b| - 1] == a + b[..|b| - 1];
      CountLeadingAppend(a, b[..|b| - 1]);
    }
  }

  lemma {:induction false} CountLeadingBounds(s: string)
    ensures CountLeading(s) <= |s|
    ensures (forall i :: 0 <= i < |s| ==> s[i] as int < 0x80) ==> CountLeading(s) == |s|
  {
    if s != [] {
      CountLeadingBounds(s[..|s| - 1]);
    }
  }

  /** hasUpperCaseLetters: the first upper-case letter ends the scan with true. */
  function HasUpperCaseLetters(s: string): (r: bool)
    ensures r <==> exists i :: 0 <= i < |s| && IsAlphaUpper(s[i])
  {
    if s == [] then false
    else if IsAlphaUpper(s[0]) then true
    else
      assert forall i :: 1 <= i < |s| ==> s[i] == s[1..][i - 1];
      HasUpperCaseLetters(s[1..])
  }

  /** isSnakeCase: the first character that is not '_', a lower-case letter or a digit
      ends the scan with false; the empty string is snake case. */
  function IsSnakeCase(s: string): (r: bool)
    ensures r <==> forall i :: 0 <= i < |s| ==> s[i] == '_' || IsAlphaLower(s[i]) || IsDigit(s[i])
  {
    if s == [] then true
    else if s[0] != '_' && !IsAlphaLower(s[0]) && !IsDigit(s[0]) then false
    else
      assert forall i :: 1 <= i < |s| ==> s[i] == s[1..][i - 1];
      IsSnakeCase(s[1..])
  }

  /** An upper-case letter is never snake case. */
  lemma SnakeCaseHasNoUpper(s: string)
    ensures IsSnakeCase(s) ==> !HasUpperCaseLetters(s)
  {
  }

  /** ASCII `toLowerCase`. */
  function Lower(s: string): (r: string)
    ensures |r| == |s|
    ensures forall i :: 0 <= i < |s| ==> r[i] == (if IsAlphaUpper(s[i]) then (s[i] as int + 32) as char else s[i])
  {
    seq(|s|, i requires 0 <= i < |s| => if IsAlphaUpper(s[i]) then (s[i] as int + 32) as char else s[i])
  }

  /** `needle` occurs in `hay` at position i. */
  predicate OccursAt(hay: string, needle: string, i: int) {
    0 <= i && i + |needle| <= |hay| && hay[i..i + |needle|] == needle
  }

  /** String.contains: a scan of every start position from the left. */
  function Contains(hay: string, needle: string): (r: bool)
    ensures r <==> exists i :: OccursAt(hay, needle, i)
    decreases |hay|
  {
    if |needle| > |hay| then
      assert forall i :: !OccursAt(hay, needle, i);
      false
    else if hay[..|needle|] == needle then
      assert OccursAt(hay, needle, 0);
      true
    else
      var r := Contains(hay[1..], needle);
      OccursShift(hay, needle);
      r
  }

  /** Shifting the haystack by one: an occurrence past position 0 is an occurrence in
      the tail. */
  lemma OccursShift(hay: string, needle: string)
    requires |hay| > 0 && !OccursAt(hay, needle, 0)
    ensures (exists i :: OccursAt(hay, needle, i)) <==> (exists i :: OccursAt(hay[1..], needle, i))
  {
    if i :| OccursAt(hay, needle, i) {
      assert i > 0;
      assert hay[1..][i - 1..i - 1 + |needle|] == hay[i..i + |needle|];
      assert OccursAt(hay[1..], needle, i - 1);
    }
    if i :| OccursAt(hay[1..], needle, i) {
      assert hay[i + 1..i + 1 + |needle|] == hay[1..][i..i + |needle|];
      assert OccursAt(hay, needle, i + 1);
    }
  }

  /** containsIgnoreCase: `toFind` occurs in `source` once both are lower-cased. */
  function ContainsIgnoreCase(source: string, toFind: string): (r: bool)
    ensures r <==> exists i :: OccursAt(Lower(source), Lower(toFind), i)
  {
    Contains(Lower(source), Lower(toFind))
  }

  /** An empty needle is always found, and every string contains itself whatever the
      case of either copy. */
  lemma ContainsIgnoreCaseLaws(source: string, other: string)
    ensures ContainsIgnoreCase(source, "")
    ensures Lower(other) == Lower(source) ==> ContainsIgnoreCase(source, other)
  {
    assert OccursAt(Lower(source), Lower(""), 0);
    assert Lower(source)[0..|Lower(source)|] == Lower(source);
    assert Lower(other) == Lower(source) ==> OccursAt(Lower(source), Lower(other), 0);
  }
}

/** MathUtils.clamp, over ints (the callers clamp ints). */
module Maths {
  /** clamp(value, min, max): max for a value above max; otherwise min for a value
      below min; otherwise the value. */
  function Clamp(value: int, min: int, max: int): (r: int)
    ensures r == value || r == min || r == max
    ensures min <= max ==> min <= r <= max
  {
    if value > max then max
    else if value < min then min
    else value
  }

  /** With min <= max, clamp leaves values in range alone, sends the rest to the
      nearer bound, and clamping twice is clamping once. When min > max, the upper
      bound wins for large values and the lower for all others. */
  lemma ClampLaws(value: int, min: int, max: int)
    ensures min <= value <= max ==> Clamp(value, min, max) == value
    ensures value > max ==> Clamp(value, min, max) == max
    ensures value < min && value <= max ==> Clamp(value, min, max) == min
    ensures min <= max ==> Clamp(Clamp(value, min, max), min, max) == Clamp(value, min, max)
  {
  }
}

/** ListUtils.toByteArray. */
module Lists {
  import opened Base

  /** A new array of the list's size, element i copied from element i. */
  method ToByteArray(data: seq<Byte>) returns (bytes: array<Byte>)
    ensures fresh(bytes) && bytes[..] == data
  {
    bytes := new Byte[|data|];
    var i := 0;
    while i < bytes.Length
      invariant i <= bytes.Length == |data| && bytes[..i] == data[..i]
    {
      bytes[i] := data[i];
      i := i + 1;
    }
  }
}

/** OS: the folders ImBob keeps its files in, and the platform the `os.name` property
    names. The system properties are parameters. */
module Platform {
  import opened Base

  datatype OperatingSystem = Linux | MacOSX | Windows

  /** `replace("\\", "/")`: every backslash becomes a slash. */
  function Slashes(s: string): (r: string)
    ensures |r| == |s| && forall i :: 0 <= i < |r| ==> r[i] != '\\'
    ensures forall i :: 0 <= i < |s| && s[i] != '\\' ==> r[i] == s[i]
  {
    seq(|s|, i requires 0 <= i < |s| => if s[i] == '\\' then '/' else s[i])
  }

  /** getImBobFolder: the home folder with forward slashes, then "/.imbob/". */
  function ImBobFolder(home: string): string {
    Slashes(home) + "/.imbob/"
  }

  /** getAssetsFolder: "assets/" inside the ImBob folder. */
  function AssetsFolder(home: string): string {
    ImBobFolder(home) + "assets/"
  }

  /** The ImBob folder of a home path without backslashes is that path plus
      "/.imbob/", and the assets folder lies inside it. */
  lemma FolderLaws(home: string)
    ensures (forall i :: 0 <= i < |home| ==> home[i] != '\\') ==> ImBobFolder(home) == home + "/.imbob/"
    ensures ImBobFolder(home) <= AssetsFolder(home)
    ensures forall i :: 0 <= i < |ImBobFolder(home)| ==> ImBobFolder(home)[i] != '\\'
  {
    if forall i :: 0 <= i < |home| ==> home[i] != '\\' {
      assert Slashes(home) == home;
    }
  }

  predicate StartsWith(s: string, prefix: string) {
    prefix <= s
  }

  /** The static initializer: "Windows" first, then the four Unix prefixes, then the
      two Mac prefixes; any other name throws IllegalStateException. */
  function PlatformOf(osName: string): (r: Result<OperatingSystem>)
    ensures StartsWith(osName, "Windows") ==> r == Ok(Windows)
    ensures r == Ok(Linux) <==>
              !StartsWith(osName, "Windows") &&
              (StartsWith(osName, "Linux") || StartsWith(osName, "FreeBSD") ||
               StartsWith(osName, "SunOS") || StartsWith(osName, "Unix"))
    ensures r == Ok(MacOSX) <==>
              !StartsWith(osName, "Windows") &&
              !(StartsWith(osName, "Linux") || StartsWith(osName, "FreeBSD") ||
                StartsWith(osName, "SunOS") || StartsWith(osName, "Unix")) &&
              (StartsWith(osName, "Mac OS X") || StartsWith(osName, "Darwin"))
    ensures r.Err? ==> r.error == UnknownPlatform
  {
    if StartsWith(osName, "Windows") then Ok(Windows)
    else if !StartsWith(osName, "Linux") && !StartsWith(osName, "FreeBSD") &&
            !StartsWith(osName, "SunOS") && !StartsWith(osName, "Unix") then
      if !StartsWith(osName, "Mac OS X") && !StartsWith(osName, "Darwin") then Err(UnknownPlatform)
      else Ok(MacOSX)
    else Ok(Linux)
  }

  predicate IsWindows(p: OperatingSystem) { p == Windows }
  predicate IsLinux(p: OperatingSystem) { p == Linux }
  predicate IsMacOS(p: OperatingSystem) { p == MacOSX }

  /** Whenever the initializer succeeds, exactly one of the three tests holds; it
      fails exactly on names none of the prefixes start. */
  lemma ExactlyOnePlatform(osName: string)
    ensures PlatformOf(osName).Ok? ==>
              var p := PlatformOf(osName).value;
              (IsWindows(p) && !IsLinux(p) && !IsMacOS(p)) ||
              (!IsWindows(p) && IsLinux(p) && !IsMacOS(p)) ||
              (!IsWindows(p) && !IsLinux(p) && IsMacOS(p))
    ensures PlatformOf(osName).Err? <==>
              !(StartsWith(osName, "Windows") || StartsWith(osName, "Linux") || StartsWith(osName, "FreeBSD") ||
                StartsWith(osName, "SunOS") || StartsWith(osName, "Unix") ||
                StartsWith(osName, "Mac OS X") || StartsWith(osName, "Darwin"))
  {
  }
}
