/** Normalisation of Tomcat context paths into a canonical path and a webapp directory name. */
module ContextPath {

  datatype Reason = Traversal | EmptyName | InvalidCharacters | EmptySegment | BadSegmentEnd | ReservedName

  datatype Normalized = Normal(path: string, webappDir: string) | Rejected(reason: Reason)

  // ------------------------------------------------------------ string helpers

  /** Backslashes become slashes. */
  function Slashed(s: string): (t: string)
    ensures |t| == |s| && forall i :: 0 <= i < |s| ==> t[i] == if s[i] == '\\' then '/' else s[i]
  {
    if s == "" then "" else [if s[0] == '\\' then '/' else s[0]] + Slashed(s[1..])
  }

  predicate HasDotDot(s: string) {
    exists i :: 0 <= i < |s| - 1 && s[i] == '.' && s[i + 1] == '.'
  }

  /** Index of the first slash, |s| if there is none. */
  function SlashIn(s: string): (i: nat)
    ensures i <= |s| && (i < |s| ==> s[i] == '/') && forall j :: 0 <= j < i ==> s[j] != '/'
  {
    if s == "" || s[0] == '/' then 0 else 1 + SlashIn(s[1..])
  }

  function Split(s: string): (parts: seq<string>)
    ensures |parts| > 0
    decreases |s|
  {
    var i := SlashIn(s);
    if i == |s| then [s] else [s[..i]] + Split(s[i + 1..])
  }

  function Join(parts: seq<string>): string {
    if parts == [] then ""
    else if |parts| == 1 then parts[0]
    else parts[0] + "/" + Join(parts[1..])
  }

  /** Go's path.Clean on the parts of a rooted path: "" and "." are dropped, ".." takes the
      part before it along. */
  function CleanParts(parts: seq<string>, kept: seq<string>): seq<string>
    decreases |parts|
  {
    if parts == [] then kept
    else if parts[0] == "" || parts[0] == "." then CleanParts(parts[1..], kept)
    else if parts[0] == ".." then CleanParts(parts[1..], if kept == [] then [] else kept[..|kept| - 1])
    else CleanParts(parts[1..], kept + [parts[0]])
  }

  function Clean(rooted: string): string {
    "/" + Join(CleanParts(Split(rooted), []))
  }

  function TrimSlashes(s: string): string {
    var t := if s != "" && s[0] == '/' then s[1..] else s;
    if t != "" && t[|t| - 1] == '/' then t[..|t| - 1] else t
  }

  function Upper(s: string): (t: string)
    ensures |t| == |s|
  {
    if s == "" then "" else [if 'a' <= s[0] <= 'z' then s[0] - 'a' + 'A' else s[0]] + Upper(s[1..])
  }

  const RESERVED: set<string> := {"CON", "PRN", "AUX", "NUL",
    "COM1", "COM2", "COM3", "COM4", "COM5", "COM6", "COM7", "COM8", "COM9",
    "LPT1", "LPT2", "LPT3", "LPT4", "LPT5", "LPT6", "LPT7", "LPT8", "LPT9"}

  // -------------------------------------------------------------- the two checks

  datatype Verdict = Valid | Invalid(reason: Reason)

  function CheckSegments(parts: seq<string>): Verdict {
    if parts == [] then Valid
    else if parts[0] == "" then Invalid(EmptySegment)
    else if parts[0][|parts[0]| - 1] == '.' || parts[0][|parts[0]| - 1] == ' ' then Invalid(BadSegmentEnd)
    else if Upper(parts[0]) in RESERVED then Invalid(ReservedName)
    else CheckSegments(parts[1..])
  }

  function ValidateContextName(name: string): Verdict {
    if name == "" then Invalid(EmptyName)
    else if '\\' in name || ':' in name then Invalid(InvalidCharacters)
    else CheckSegments(Split(name))
  }

  function NormalizeContextPath(contextPath: string): Normalized {
    if contextPath == "" || contextPath == "/" then Normal("/", "ROOT") else
    var slashed := Slashed(contextPath);
    var rooted := if "/" <= slashed then slashed else "/" + slashed;
    if HasDotDot(rooted) then Rejected(Traversal) else
    CheckCleaned(Clean(rooted))
  }

  /** The second half of NormalizeContextPath, for the cleaned path. */
  function CheckCleaned(cleaned: string): Normalized {
    if cleaned == "/" then Normal("/", "ROOT")
    else if HasDotDot(cleaned) then Rejected(Traversal)
    else
      var trimmed := TrimSlashes(cleaned);
      match ValidateContextName(trimmed)
      case Invalid(reason) => Rejected(reason)
      case Valid => Normal(if "/" <= cleaned then cleaned else "/" + cleaned, trimmed)
  }

  // ------------------------------------------------------- what it comes down to

  function Kept(parts: seq<string>): seq<string> {
    if parts == [] then []
    else (if parts[0] == "" || parts[0] == "." then [] else [parts[0]]) + Kept(parts[1..])
  }

  /** The non-empty, non-"." segments after slash conversion. */
  function Segments(s: string): seq<string> {
    Kept(Split(Slashed(s)))
  }

  /** The letter in either case, or the character itself. */
  predicate SameLetter(c: char, upper: char) {
    c == upper || ('A' <= upper <= 'Z' && c == upper - 'A' + 'a')
  }

  predicate Reads(part: string, upper: string) {
    |part| == |upper| && forall i :: 0 <= i < |part| ==> SameLetter(part[i], upper[i])
  }

  /** The device names of Windows, in upper, lower or mixed case: CON, PRN, AUX, NUL, and COM
      and LPT with a digit from 1 to 9. */
  predicate DeviceName(part: string) {
    || Reads(part, "CON") || Reads(part, "PRN") || Reads(part, "AUX") || Reads(part, "NUL")
    || (|part| == 4 && (Reads(part[..3], "COM") || Reads(part[..3], "LPT")) && '1' <= part[3] <= '9')
  }

  predicate EndsBadly(part: string) {
    part != "" && (part[|part| - 1] == '.' || part[|part| - 1] == ' ')
  }

  predicate SegmentOk(part: string) {
    part != "" && !EndsBadly(part) && !DeviceName(part) && ':' !in part
  }

  predicate SegmentsOk(parts: seq<string>) {
    forall i :: 0 <= i < |parts| ==> SegmentOk(parts[i])
  }

  /** Pieces that could come from splitting a converted path. */
  predicate Plain(part: string) {
    '/' !in part && '\\' !in part && !HasDotDot(part)
  }

  predicate AllPlain(parts: seq<string>) {
    forall i :: 0 <= i < |parts| ==> Plain(parts[i])
  }

  // ------------------------------------------------------------- device names

  lemma {:induction false} UpperIs(s: string, r: string)
    requires forall i :: 0 <= i < |r| ==> !('a' <= r[i] <= 'z')
    ensures Upper(s) == r <==> Reads(s, r)
    decreases |s|
  {
    if s == "" || r == "" {
    } else {
      var c := if 'a' <= s[0] <= 'z' then s[0] - 'a' + 'A' else s[0];
      assert Upper(s) == [c] + Upper(s[1..]);
      assert c == r[0] <==> SameLetter(s[0], r[0]);
      hide *;
      UpperIs(s[1..], r[1..]);
      assert r == [r[0]] + r[1..];
      UpperCons(c, Upper(s[1..]), r[0], r[1..]);
      ReadsCons(s, r);
    }
  }

  lemma UpperCons(c: char, t: string, d: char, u: string)
    ensures [c] + t == [d] + u <==> c == d && t == u
  {
    if [c] + t == [d] + u {
      assert ([c] + t)[0] == c && ([d] + u)[0] == d && ([c] + t)[1..] == t && ([d] + u)[1..] == u;
    }
  }

  lemma ReadsCons(s: string, r: string)
    requires s != "" && r != ""
    ensures Reads(s, r) <==> SameLetter(s[0], r[0]) && Reads(s[1..], r[1..])
  {
    hide SameLetter;
    if SameLetter(s[0], r[0]) && Reads(s[1..], r[1..]) {
      forall i | 0 <= i < |s| ensures SameLetter(s[i], r[i]) {
        if i > 0 { assert SameLetter(s[1..][i - 1], r[1..][i - 1]); }
      }
    }
    if Reads(s, r) {
      assert forall i :: 0 <= i < |s| - 1 ==> s[1..][i] == s[i + 1] && r[1..][i] == r[i + 1];
    }
  }

  /** A name with a digit at the end reads as its letters and that digit. */
  lemma ReadsNumbered(part: string, device: string, digit: char)
    requires |device| == 3 && '1' <= digit <= '9'
    ensures Reads(part, device + [digit]) <==> |part| == 4 && Reads(part[..3], device) && part[3] == digit
  {
    var r := device + [digit];
    assert forall i :: 0 <= i < 3 ==> r[i] == device[i];
    if |part| == 4 {
      assert part[..3] + [part[3]] == part;
    }
  }

  predicate Numbered(r: string, device: string, digit: char) {
    '1' <= digit <= '9' && r == device + [digit]
  }

  lemma Capitals(device: string, digit: char)
    requires (device == "COM" || device == "LPT") && '1' <= digit <= '9'
    ensures |device| == 3 && forall i :: 0 <= i < 4 ==> !('a' <= (device + [digit])[i] <= 'z')
  {
  }

  lemma NumberedAt(part: string, device: string, digit: char)
    requires device == "COM" || device == "LPT"
    ensures Numbered(Upper(part), device, digit) <==>
            |part| == 4 && Reads(part[..3], device) && part[3] == digit && '1' <= digit <= '9'
  {
    hide Upper, Reads;
    if '1' <= digit <= '9' {
      Capitals(device, digit);
      ReadsNumbered(part, device, digit);
      UpperIs(part, device + [digit]);
    }
  }

  lemma NumberedReserved(part: string, device: string)
    requires device == "COM" || device == "LPT"
    ensures (exists digit :: Numbered(Upper(part), device, digit)) <==>
            |part| == 4 && Reads(part[..3], device) && '1' <= part[3] <= '9'
  {
    hide Upper, Reads, Numbered;
    if |part| == 4 && Reads(part[..3], device) && '1' <= part[3] <= '9' {
      NumberedAt(part, device, part[3]);
    }
    forall digit | Numbered(Upper(part), device, digit)
      ensures |part| == 4 && Reads(part[..3], device) && '1' <= part[3] <= '9'
    {
      NumberedAt(part, device, digit);
    }
  }

  lemma ReservedNames(r: string)
    ensures r in RESERVED <==>
            || r == "CON" || r == "PRN" || r == "AUX" || r == "NUL"
            || (exists digit :: Numbered(r, "COM", digit))
            || (exists digit :: Numbered(r, "LPT", digit))
  {
    assert "COM1" == "COM" + ['1'] && "COM2" == "COM" + ['2'] && "COM3" == "COM" + ['3'];
    assert "COM4" == "COM" + ['4'] && "COM5" == "COM" + ['5'] && "COM6" == "COM" + ['6'];
    assert "COM7" == "COM" + ['7'] && "COM8" == "COM" + ['8'] && "COM9" == "COM" + ['9'];
    assert "LPT1" == "LPT" + ['1'] && "LPT2" == "LPT" + ['2'] && "LPT3" == "LPT" + ['3'];
    assert "LPT4" == "LPT" + ['4'] && "LPT5" == "LPT" + ['5'] && "LPT6" == "LPT" + ['6'];
    assert "LPT7" == "LPT" + ['7'] && "LPT8" == "LPT" + ['8'] && "LPT9" == "LPT" + ['9'];
    forall digit | Numbered(r, "COM", digit) || Numbered(r, "LPT", digit) ensures r in RESERVED {
      Digits(digit);
    }
    if r in RESERVED && r !in {"CON", "PRN", "AUX", "NUL"} {
      var digit := r[3];
      assert Numbered(r, "COM", digit) || Numbered(r, "LPT", digit);
    }
  }

  lemma Digits(digit: char)
    requires '1' <= digit <= '9'
    ensures digit in {'1', '2', '3', '4', '5', '6', '7', '8', '9'}
  {
  }

  /** The upper-case comparison of the code rejects exactly the device names. */
  lemma ReservedExactly(part: string)
    ensures Upper(part) in RESERVED <==> DeviceName(part)
  {
    ReservedNames(Upper(part));
    UpperIs(part, "CON");
    UpperIs(part, "PRN");
    UpperIs(part, "AUX");
    UpperIs(part, "NUL");
    NumberedReserved(part, "COM");
    NumberedReserved(part, "LPT");
    hide Upper, Reads, Numbered;
  }

  // ------------------------------------------------------------------- splitting

  lemma {:induction false} FirstSlash(a: string, rest: string)
    requires '/' !in a
    ensures SlashIn(a + "/" + rest) == |a|
    ensures SlashIn(a) == |a|
    decreases |a|
  {
    if a == "" {
    } else {
      assert a[0] in a && a == [a[0]] + a[1..];
      assert (a + "/" + rest)[1..] == a[1..] + "/" + rest;
      FirstSlash(a[1..], rest);
    }
  }

  lemma {:induction false} SplitJoin(parts: seq<string>)
    requires parts != [] && AllPlain(parts)
    ensures Split(Join(parts)) == parts
    decreases |parts|
  {
    assert Plain(parts[0]);
    if |parts| == 1 {
      FirstSlash(parts[0], "");
      hide SlashIn, HasDotDot;
    } else {
      var a, rest := parts[0], Join(parts[1..]);
      var s := a + "/" + rest;
      FirstSlash(a, rest);
      SplitJoin(parts[1..]);
      hide SlashIn, HasDotDot, Join;
      assert s[..|a|] == a && s[|a| + 1..] == rest;
    }
  }

  lemma SplitRooted(s: string)
    ensures Split("/" + s) == [""] + Split(s)
  {
    assert ("/" + s)[..0] == "" && ("/" + s)[1..] == s;
  }

  /** Splitting a text without backslashes and ".." yields plain pieces. */
  lemma {:induction false} SplitPlain(s: string)
    requires '\\' !in s && !HasDotDot(s)
    ensures AllPlain(Split(s))
    decreases |s|
  {
    var i := SlashIn(s);
    if i == |s| {
    } else {
      var tail := s[i + 1..];
      forall j | 0 <= j < |tail| - 1 ensures !(tail[j] == '.' && tail[j + 1] == '.') {
        assert tail[j] == s[i + 1 + j] && tail[j + 1] == s[i + 1 + j + 1];
      }
      SplitPlain(tail);
    }
    assert Plain(s[..i]);
    assert s[..|s|] == s;
    hide SlashIn, Plain;
  }

  lemma TwoDots()
    ensures !Plain("..")
  {
    assert ".."[0] == '.' && ".."[1] == '.';
  }

  function KeptPart(part: string): seq<string> {
    if part == "" || part == "." then [] else [part]
  }

  lemma CleanStep(part: string, tail: seq<string>, kept: seq<string>)
    requires Plain(part)
    ensures CleanParts([part] + tail, kept) == CleanParts(tail, kept + KeptPart(part))
    ensures Kept([part] + tail) == KeptPart(part) + Kept(tail)
  {
    TwoDots();
    var parts := [part] + tail;
    assert parts[0] == part && parts[1..] == tail;
    hide Plain;
    assert kept + [] == kept;
  }

  lemma CleanEnd(kept: seq<string>)
    ensures CleanParts([], kept) == kept + Kept([])
  {
    assert kept + [] == kept;
  }

  lemma {:induction false} CleanIsKept(parts: seq<string>, kept: seq<string>)
    requires AllPlain(parts)
    ensures CleanParts(parts, kept) == kept + Kept(parts)
    decreases |parts|
  {
    if parts == [] {
      CleanEnd(kept);
    } else {
      var part, tail := parts[0], parts[1..];
      assert Plain(part) && AllPlain(tail);
      hide *;
      assert parts == [part] + tail;
      CleanStep(part, tail, kept);
      CleanIsKept(tail, kept + KeptPart(part));
      assert (kept + KeptPart(part)) + Kept(tail) == kept + (KeptPart(part) + Kept(tail));
    }
  }

  lemma {:induction false} KeptPlain(parts: seq<string>)
    requires AllPlain(parts)
    ensures AllPlain(Kept(parts))
    ensures forall i :: 0 <= i < |Kept(parts)| ==> Kept(parts)[i] != "" && Kept(parts)[i] != "."
    decreases |parts|
  {
    if parts == [] {
    } else {
      assert Plain(parts[0]);
      hide Plain;
      KeptPlain(parts[1..]);
    }
  }

  lemma {:induction false} KeptOfKept(parts: seq<string>)
    requires forall i :: 0 <= i < |parts| ==> parts[i] != "" && parts[i] != "."
    ensures Kept(parts) == parts
    decreases |parts|
  {
    if parts == [] {
    } else {
      KeptOfKept(parts[1..]);
    }
  }

  /** Joining plain, non-empty pieces makes no new "..", and no slash at either end. */
  lemma {:induction false} JoinPlain(parts: seq<string>)
    requires parts != [] && AllPlain(parts) && forall i :: 0 <= i < |parts| ==> parts[i] != ""
    ensures Join(parts) != "" && !HasDotDot(Join(parts)) && '\\' !in Join(parts)
    ensures Join(parts)[0] != '/' && Join(parts)[|Join(parts)| - 1] != '/'
    decreases |parts|
  {
    var a := parts[0];
    assert Plain(a) && a[0] in a && a[|a| - 1] in a;
    if |parts| <= 1 {
    } else {
      JoinPlain(parts[1..]);
      JoinTwo(a, Join(parts[1..]));
    }
  }

  lemma JoinTwo(a: string, b: string)
    requires !HasDotDot(a) && !HasDotDot(b) && '\\' !in a && '\\' !in b && a != "" && b != ""
    ensures !HasDotDot(a + "/" + b) && '\\' !in a + "/" + b
    ensures (a + "/" + b)[0] == a[0] && (a + "/" + b)[|a + "/" + b| - 1] == b[|b| - 1]
  {
    var s := a + "/" + b;
    forall i | 0 <= i < |s| - 1 ensures !(s[i] == '.' && s[i + 1] == '.') {
      if i + 1 < |a| {
        assert s[i] == a[i] && s[i + 1] == a[i + 1];
      } else if i > |a| {
        assert s[i] == b[i - |a| - 1] && s[i + 1] == b[i - |a| - 1 + 1];
      } else {
        assert s[|a|] == '/';
      }
    }
  }

  // -------------------------------------------------------------- normalisation

  lemma {:induction false} ChecksSegments(parts: seq<string>)
    requires forall i :: 0 <= i < |parts| ==> ':' !in parts[i]
    ensures CheckSegments(parts) == Valid <==> SegmentsOk(parts)
    decreases |parts|
  {
    hide Upper, DeviceName;
    if parts == [] {
    } else {
      ReservedExactly(parts[0]);
      ChecksSegments(parts[1..]);
      assert SegmentsOk(parts) <==> SegmentOk(parts[0]) && SegmentsOk(parts[1..]) by {
        hide SegmentOk;
        assert forall i :: 0 <= i < |parts[1..]| ==> parts[1..][i] == parts[i + 1];
      }
    }
  }

  lemma {:induction false} ColonInJoin(parts: seq<string>)
    ensures ':' in Join(parts) <==> exists i :: 0 <= i < |parts| && ':' in parts[i]
    decreases |parts|
  {
    if |parts| <= 1 {
    } else {
      ColonInJoin(parts[1..]);
      assert forall i :: 0 <= i < |parts[1..]| ==> parts[1..][i] == parts[i + 1];
      var s := parts[0] + "/" + Join(parts[1..]);
      assert ':' in s <==> ':' in parts[0] || ':' in Join(parts[1..]);
    }
  }

  lemma ValidName(parts: seq<string>)
    requires parts != [] && AllPlain(parts) && forall i :: 0 <= i < |parts| ==> parts[i] != ""
    ensures ValidateContextName(Join(parts)) == Valid <==> SegmentsOk(parts)
  {
    JoinPlain(parts);
    SplitJoin(parts);
    ColonInJoin(parts);
    hide Join, Split, AllPlain, HasDotDot;
    if ':' !in Join(parts) {
      assert forall i :: 0 <= i < |parts| ==> ':' !in parts[i];
      ChecksSegments(parts);
    }
    hide CheckSegments;
  }

  /** The converted path with its leading slash, as the code cleans it. */
  function Rooted(s: string): string {
    if "/" <= Slashed(s) then Slashed(s) else "/" + Slashed(s)
  }

  lemma RootedSegments(s: string)
    ensures Kept(Split(Rooted(s))) == Segments(s)
    ensures '\\' !in Rooted(s)
    ensures HasDotDot(Rooted(s)) <==> HasDotDot(Slashed(s))
  {
    NoBackslash(s);
    hide Slashed, HasDotDot, Split, Kept;
    var t := Slashed(s);
    SplitRooted(t);
    KeptBehindSlash(Split(t));
    RootedDots(t);
  }

  lemma NoBackslash(s: string)
    ensures '\\' !in Slashed(s) && '\\' !in "/" + Slashed(s)
  {
  }

  lemma KeptBehindSlash(parts: seq<string>)
    ensures Kept([""] + parts) == Kept(parts)
  {
    assert ([""] + parts)[1..] == parts;
    assert [] + Kept(parts) == Kept(parts);
  }

  lemma RootedDots(t: string)
    ensures HasDotDot("/" + t) <==> HasDotDot(t)
  {
    var u := "/" + t;
    assert forall i :: 0 <= i < |t| ==> t[i] == u[i + 1];
    if i :| 0 <= i < |t| - 1 && t[i] == '.' && t[i + 1] == '.' {
      assert u[i + 1] == '.' && u[i + 1 + 1] == '.';
    }
    if i :| 0 <= i < |u| - 1 && u[i] == '.' && u[i + 1] == '.' {
      assert u[0] == '/';
      assert t[i - 1] == '.' && t[i - 1 + 1] == '.';
    }
  }

  /** Cleaning a path without ".." just drops the empty and "." segments. */
  lemma Cleaned(s: string)
    requires !HasDotDot(Slashed(s))
    ensures Clean(Rooted(s)) == "/" + Join(Segments(s))
    ensures AllPlain(Segments(s))
    ensures forall i :: 0 <= i < |Segments(s)| ==> Segments(s)[i] != "" && Segments(s)[i] != "."
  {
    RootedSegments(s);
    var parts := Split(Rooted(s));
    SplitPlain(Rooted(s));
    CleanIsKept(parts, []);
    KeptPlain(parts);
    hide Rooted, Split, Kept, AllPlain, Segments, CleanParts, Join;
    assert [] + Kept(parts) == Kept(parts);
  }

  lemma CleanedText(j: string)
    requires j != "" && j[0] != '/' && j[|j| - 1] != '/' && !HasDotDot(j)
    ensures "/" + j != "/" && TrimSlashes("/" + j) == j && !HasDotDot("/" + j) && "/" <= "/" + j
  {
    var s := "/" + j;
    assert s[1..] == j;
    forall i | 0 <= i < |s| - 1 ensures !(s[i] == '.' && s[i + 1] == '.') {
      if i > 0 { assert s[i] == j[i - 1] && s[i + 1] == j[i - 1 + 1]; }
    }
  }

  /** The normal form of a list of segments. */
  function NormalOf(parts: seq<string>): Normalized {
    if parts == [] then Normal("/", "ROOT") else Normal("/" + Join(parts), Join(parts))
  }

  /** Main result: a path is accepted exactly if it holds no ".." after slash conversion and
      all its segments are admissible, and then its normal form is that of its segments. */
  lemma NormalizeExactly(s: string)
    ensures NormalizeContextPath(s).Normal? <==> !HasDotDot(Slashed(s)) && SegmentsOk(Segments(s))
    ensures NormalizeContextPath(s).Normal? ==> NormalizeContextPath(s) == NormalOf(Segments(s))
  {
    RootedSegments(s);
    if s == "" || s == "/" {
      RootPath(s);
      hide HasDotDot, Slashed, Segments;
    } else {
      hide HasDotDot, Slashed, Segments, Clean, CheckCleaned, SegmentsOk, Join, NormalOf;
      if !HasDotDot(Slashed(s)) {
        Cleaned(s);
        CheckedSegments(Segments(s));
      }
    }
  }

  lemma CheckedSegments(parts: seq<string>)
    requires AllPlain(parts) && forall i :: 0 <= i < |parts| ==> parts[i] != "" && parts[i] != "."
    ensures CheckCleaned("/" + Join(parts)).Normal? <==> SegmentsOk(parts)
    ensures CheckCleaned("/" + Join(parts)).Normal? ==> CheckCleaned("/" + Join(parts)) == NormalOf(parts)
  {
    if parts == [] {
      hide *;
      CheckedNothing();
    } else {
      hide Join, SegmentsOk, AllPlain, HasDotDot, CheckCleaned, ValidateContextName;
      JoinPlain(parts);
      CheckedText(Join(parts));
      ValidName(parts);
    }
  }

  lemma CheckedNothing()
    ensures CheckCleaned("/" + Join([])) == NormalOf([]) && SegmentsOk([])
  {
    assert "/" + "" == "/";
    hide HasDotDot, TrimSlashes, ValidateContextName, SegmentOk;
  }

  lemma CheckedText(j: string)
    requires j != "" && j[0] != '/' && j[|j| - 1] != '/' && !HasDotDot(j)
    ensures CheckCleaned("/" + j) ==
            match ValidateContextName(j) case Valid => Normal("/" + j, j) case Invalid(reason) => Rejected(reason)
  {
    CleanedText(j);
    hide HasDotDot, TrimSlashes, ValidateContextName;
  }

  // ------------------------------------------------------ why a path is rejected

  predicate HasColon(parts: seq<string>) {
    exists i :: 0 <= i < |parts| && ':' in parts[i]
  }

  /** The first segment that is not admissible. */
  predicate FirstBad(parts: seq<string>, i: nat) {
    i < |parts| && !SegmentOk(parts[i]) && forall j :: 0 <= j < i ==> SegmentOk(parts[j])
  }

  lemma {:induction false} FirstBadDecides(parts: seq<string>) returns (i: nat)
    requires !HasColon(parts) && (forall j :: 0 <= j < |parts| ==> parts[j] != "") && !SegmentsOk(parts)
    ensures FirstBad(parts, i)
    ensures CheckSegments(parts) == Invalid(if EndsBadly(parts[i]) then BadSegmentEnd else ReservedName)
    decreases |parts|
  {
    var part, tail := parts[0], parts[1..];
    ReservedExactly(part);
    hide Upper, DeviceName;
    if !SegmentOk(part) {
      i := 0;
    } else {
      assert forall j :: 0 <= j < |tail| ==> tail[j] == parts[j + 1];
      var k := FirstBadDecides(tail);
      i := k + 1;
      hide SegmentOk;
      forall j | 0 <= j < i ensures SegmentOk(parts[j]) {
        if j > 0 { assert SegmentOk(tail[j - 1]); }
      }
    }
  }

  lemma NameVerdict(parts: seq<string>)
    requires parts != [] && AllPlain(parts) && forall i :: 0 <= i < |parts| ==> parts[i] != ""
    ensures ValidateContextName(Join(parts)) ==
            if HasColon(parts) then Invalid(InvalidCharacters) else CheckSegments(parts)
  {
    JoinPlain(parts);
    SplitJoin(parts);
    ColonInJoin(parts);
    hide Join, Split, AllPlain, HasDotDot, CheckSegments;
  }

  /** For a colon, exactly if a segment has one; else for the first inadmissible segment, because
      of its end or because it is a device name. */
  ghost predicate Because(parts: seq<string>, reason: Reason) {
    if HasColon(parts) then reason == InvalidCharacters
    else exists i: nat :: FirstBad(parts, i) && reason == if EndsBadly(parts[i]) then BadSegmentEnd else ReservedName
  }

  lemma RejectedSegments(parts: seq<string>)
    requires AllPlain(parts) && forall i :: 0 <= i < |parts| ==> parts[i] != "" && parts[i] != "."
    requires CheckCleaned("/" + Join(parts)).Rejected?
    ensures Because(parts, CheckCleaned("/" + Join(parts)).reason)
  {
    hide *;
    CheckedSegments(parts);
    if parts == [] {
      CheckedNothing();
    } else {
      JoinPlain(parts);
      CheckedText(Join(parts));
      NameVerdict(parts);
      if HasColon(parts) {
        ColonIsReason(parts);
      } else {
        var i := FirstBadDecides(parts);
        SegmentIsReason(parts, i);
      }
    }
  }

  lemma ColonIsReason(parts: seq<string>)
    requires HasColon(parts)
    ensures Because(parts, InvalidCharacters)
  {
  }

  lemma SegmentIsReason(parts: seq<string>, i: nat)
    requires !HasColon(parts) && FirstBad(parts, i)
    ensures Because(parts, if EndsBadly(parts[i]) then BadSegmentEnd else ReservedName)
  {
    hide FirstBad, EndsBadly;
  }

  /** Whatever is rejected: for "..", exactly if it is there, and else because of its segments.
      Names and segments are never found empty. */
  lemma RejectedExactly(s: string)
    requires NormalizeContextPath(s).Rejected?
    ensures if HasDotDot(Slashed(s)) then NormalizeContextPath(s).reason == Traversal
            else Because(Segments(s), NormalizeContextPath(s).reason)
  {
    RootedSegments(s);
    hide HasDotDot, Slashed, Segments, Clean, CheckCleaned, Because;
    if !HasDotDot(Slashed(s)) {
      Cleaned(s);
      assert NormalizeContextPath(s) == CheckCleaned("/" + Join(Segments(s)));
      RejectedSegments(Segments(s));
    }
  }

  lemma RootPath(s: string)
    requires s == "" || s == "/"
    ensures !HasDotDot(Slashed(s)) && Segments(s) == []
  {
    if s == "/" {
      assert Slashed("/") == "/" && "/"[1..] == "";
      assert Split("/") == [""] + Split("");
      assert Split("") == [""];
      assert Kept([""] + [""]) == [];
    } else {
      assert Split("") == [""];
      assert Kept([""]) == [];
    }
  }

  lemma SlashedIdentity(s: string)
    requires '\\' !in s
    ensures Slashed(s) == s
  {
  }

  lemma NormalPath(parts: seq<string>)
    requires AllPlain(parts) && forall i :: 0 <= i < |parts| ==> parts[i] != "" && parts[i] != "."
    ensures Segments(NormalOf(parts).path) == parts && !HasDotDot(Slashed(NormalOf(parts).path))
  {
    if parts == [] {
      RootPath("/");
    } else {
      JoinPlain(parts);
      hide AllPlain, Join, HasDotDot;
      var j := Join(parts);
      CleanedText(j);
      SplitJoin(parts);
      KeptOfKept(parts);
      SegmentsOfNormal(j, parts);
    }
  }

  lemma SegmentsOfNormal(j: string, parts: seq<string>)
    requires '\\' !in j && Split(j) == parts && Kept(parts) == parts
    ensures Slashed("/" + j) == "/" + j && Segments("/" + j) == parts
  {
    hide Split;
    SlashedIdentity("/" + j);
    SplitRooted(j);
    assert ([""] + parts)[1..] == parts;
    assert Kept([""] + parts) == [] + Kept(parts) == parts;
  }

  lemma SegmentsPlain(s: string)
    requires !HasDotDot(Slashed(s))
    ensures AllPlain(Segments(s))
    ensures forall i :: 0 <= i < |Segments(s)| ==> Segments(s)[i] != "" && Segments(s)[i] != "."
  {
    Cleaned(s);
  }

  /** Normalising a normal form changes nothing. */
  lemma Idempotent(s: string)
    requires NormalizeContextPath(s).Normal?
    ensures NormalizeContextPath(NormalizeContextPath(s).path) == NormalizeContextPath(s)
  {
    hide *;
    NormalizeExactly(s);
    SegmentsPlain(s);
    NormalPath(Segments(s));
    NormalizeExactly(NormalOf(Segments(s)).path);
  }

  lemma NormalOfInjective(p: seq<string>, q: seq<string>)
    requires AllPlain(p) && forall i :: 0 <= i < |p| ==> p[i] != "" && p[i] != "."
    requires AllPlain(q) && forall i :: 0 <= i < |q| ==> q[i] != "" && q[i] != "."
    ensures NormalOf(p).path == NormalOf(q).path <==> p == q
  {
    NormalPath(p);
    NormalPath(q);
    hide *;
  }

  /** Two accepted paths get the same normal form exactly if they have the same segments. */
  lemma SameNormalForm(s: string, t: string)
    requires NormalizeContextPath(s).Normal? && NormalizeContextPath(t).Normal?
    ensures NormalizeContextPath(s).path == NormalizeContextPath(t).path <==> Segments(s) == Segments(t)
    ensures NormalizeContextPath(s) == NormalizeContextPath(t) <==> Segments(s) == Segments(t)
  {
    hide *;
    NormalizeExactly(s);
    NormalizeExactly(t);
    SegmentsPlain(s);
    SegmentsPlain(t);
    NormalOfInjective(Segments(s), Segments(t));
  }

  /** An accepted path other than the root is "/" and the directory name, whose segments are
      admissible, hence neither empty nor "." nor "..". */
  lemma AcceptedShape(s: string)
    requires NormalizeContextPath(s).Normal?
    ensures
      var n := NormalizeContextPath(s);
      if Segments(s) == [] then n == Normal("/", "ROOT")
      else n.path == "/" + n.webappDir && Split(n.webappDir) == Segments(s) && SegmentsOk(Split(n.webappDir))
  {
    NormalizeExactly(s);
    hide NormalizeContextPath, Segments, HasDotDot, Slashed;
    if Segments(s) != [] {
      SegmentsPlain(s);
      SplitJoin(Segments(s));
    }
  }

  /** The directory name alone does not tell the application: the root and "/ROOT" share one.
      No other two accepted paths do. */
  lemma SameDirectory(s: string, t: string)
    requires NormalizeContextPath(s).Normal? && NormalizeContextPath(t).Normal?
    ensures NormalizeContextPath(s).webappDir == NormalizeContextPath(t).webappDir <==>
            Segments(s) == Segments(t)
            || (Segments(s) == [] && Segments(t) == ["ROOT"]) || (Segments(s) == ["ROOT"] && Segments(t) == [])
  {
    hide *;
    NormalizeExactly(s);
    NormalizeExactly(t);
    SegmentsPlain(s);
    SegmentsPlain(t);
    DirOf(Segments(s));
    DirOf(Segments(t));
  }

  lemma DirOf(parts: seq<string>)
    requires AllPlain(parts) && forall i :: 0 <= i < |parts| ==> parts[i] != "" && parts[i] != "."
    ensures Split(NormalOf(parts).webappDir) == if parts == [] then ["ROOT"] else parts
    ensures NormalOf(parts).webappDir == Join(if parts == [] then ["ROOT"] else parts)
  {
    if parts == [] {
      SplitJoin(["ROOT"]);
    } else {
      SplitJoin(parts);
    }
  }
}
