/** The pieces of Go's `strings` and `strconv` that the mountinfo parsers use. */
module GoStrings {
  datatype Option<+T> = None | Some(value: T)

  /** `unicode.IsSpace`. */
  predicate IsSpace(c: char) {
    var n := c as int;
    9 <= n <= 13 || n == 0x20 || n == 0x85 || n == 0xA0 || n == 0x1680 || 0x2000 <= n <= 0x200a
    || n == 0x2028 || n == 0x2029 || n == 0x202f || n == 0x205f || n == 0x3000
  }

  /** The characters with the White_Space property of Unicode. */
  lemma SpacesAre(c: char)
    ensures IsSpace(c) <==>
              c in ['\t', '\n', '\U{0b}', '\U{0c}', '\r', ' ', '\U{85}', '\U{a0}', '\U{1680}', '\U{2000}', '\U{2001}',
                    '\U{2002}', '\U{2003}', '\U{2004}', '\U{2005}', '\U{2006}', '\U{2007}', '\U{2008}', '\U{2009}',
                    '\U{200a}', '\U{2028}', '\U{2029}', '\U{202f}', '\U{205f}', '\U{3000}']
  {
  }

  predicate IsWord(s: string) {
    s != "" && forall c <- s :: !IsSpace(c)
  }

  predicate AreWords(ws: seq<string>) {
    forall w <- ws :: IsWord(w)
  }

  function WordLength(s: string): (n: nat)
    ensures n <= |s| && (forall i :: 0 <= i < n ==> !IsSpace(s[i])) && (n < |s| ==> IsSpace(s[n]))
  {
    if s == "" || IsSpace(s[0]) then 0 else 1 + WordLength(s[1..])
  }

  /** `strings.Fields`: the maximal runs of non-space characters. */
  function Fields(s: string): (fs: seq<string>)
    ensures AreWords(fs)
    decreases |s|
  {
    if s == "" then []
    else if IsSpace(s[0]) then Fields(s[1..])
    else
      var n := WordLength(s);
      [s[..n]] + Fields(s[n..])
  }

  /** Words with one space between them. */
  function Join(ws: seq<string>): string {
    if ws == [] then "" else if |ws| == 1 then ws[0] else ws[0] + " " + Join(ws[1..])
  }

  lemma {:induction false} WordThenSpace(w: string, rest: string)
    requires IsWord(w) && (rest == "" || IsSpace(rest[0]))
    ensures WordLength(w + rest) == |w|
  {
    assert (w + rest)[0] == w[0] && w[0] in w;
    if |w| == 1 {
      assert (w + rest)[1..] == rest;
    } else {
      assert (w + rest)[1..] == w[1..] + rest;
      WordThenSpace(w[1..], rest);
    }
  }

  lemma {:induction false} FieldsOfFirst(w: string, rest: string)
    requires IsWord(w) && (rest == "" || IsSpace(rest[0]))
    ensures Fields(w + rest) == [w] + Fields(rest)
  {
    WordThenSpace(w, rest);
    var s := w + rest;
    assert s[0] == w[0] && w[0] in w;
    assert s[..|w|] == w && s[|w|..] == rest;
  }

  lemma {:induction false} FieldsOfSpace(c: char, s: string)
    requires IsSpace(c)
    ensures Fields([c] + s) == Fields(s)
  {
    assert ([c] + s)[1..] == s;
  }

  /** White space ends a word and is otherwise skipped, whatever kind and however much of it. */
  lemma {:induction false} FieldsAreRuns(w: string, c: char, s: string)
    requires IsSpace(c)
    ensures Fields("") == [] && Fields([c] + s) == Fields(s)
    ensures IsWord(w) ==> Fields(w) == [w] && Fields(w + [c] + s) == [w] + Fields(s)
  {
    FieldsOfSpace(c, s);
    if IsWord(w) {
      FieldsOfFirst(w, "");
      assert w + "" == w;
      FieldsOfFirst(w, [c] + s);
      assert w + [c] + s == w + ([c] + s);
    }
  }

  lemma {:induction false} FieldsOfTrailing(s: string, c: char)
    requires IsSpace(c)
    ensures Fields(s + [c]) == Fields(s)
    decreases |s|
  {
    if s == "" {
      FieldsOfSpace(c, "");
      assert s + [c] == [c] + "";
    } else if IsSpace(s[0]) {
      assert (s + [c])[1..] == s[1..] + [c];
      FieldsOfTrailing(s[1..], c);
    } else {
      var n := WordLength(s);
      var w, rest := s[..n], s[n..];
      assert IsWord(w) && s == w + rest && s + [c] == w + (rest + [c]);
      FieldsOfFirst(w, rest);
      FieldsOfFirst(w, rest + [c]);
      FieldsOfTrailing(rest, c);
    }
  }

  /** Splitting undoes joining. */
  lemma {:induction false} FieldsOfJoin(ws: seq<string>)
    requires AreWords(ws)
    ensures Fields(Join(ws)) == ws
  {
    if ws != [] {
      assert IsWord(ws[0]);
      if |ws| == 1 {
        FieldsOfFirst(ws[0], "");
        assert ws[0] + "" == ws[0];
      } else {
        FieldsOfFirst(ws[0], " " + Join(ws[1..]));
        assert ws[0] + " " + Join(ws[1..]) == ws[0] + (" " + Join(ws[1..]));
        FieldsOfSpace(' ', Join(ws[1..]));
        FieldsOfJoin(ws[1..]);
      }
    }
  }

  // --- Lines ---

  function TrimLeft(s: string): string {
    if s == "" || !IsSpace(s[0]) then s else TrimLeft(s[1..])
  }

  function TrimRight(s: string): string {
    if s == "" || !IsSpace(s[|s| - 1]) then s else TrimRight(s[..|s| - 1])
  }

  function TrimSpace(s: string): string { TrimRight(TrimLeft(s)) }

  function FirstNewline(s: string): (k: nat)
    ensures k <= |s| && '\n' !in s[..k] && (k < |s| ==> s[k] == '\n')
  {
    if s == "" || s[0] == '\n' then 0 else 1 + FirstNewline(s[1..])
  }

  /** `strings.Split(s, "\n")`. */
  function SplitLines(s: string): seq<string>
    decreases |s|
  {
    var k := FirstNewline(s);
    if k == |s| then [s] else [s[..k]] + SplitLines(s[k + 1..])
  }

  /** Every line with its newline. */
  function Text(lines: seq<string>): string {
    if lines == [] then "" else lines[0] + "\n" + Text(lines[1..])
  }

  lemma {:induction false} FirstNewlineOf(a: string, b: string)
    requires '\n' !in a && (b == "" || b[0] == '\n')
    ensures FirstNewline(a + b) == |a|
  {
    if a == "" {
      assert a + b == b;
    } else {
      assert a[0] in a && (a + b)[0] == a[0] && (a + b)[1..] == a[1..] + b;
      FirstNewlineOf(a[1..], b);
    }
  }

  lemma {:induction false} SplitFirst(a: string, b: string)
    requires '\n' !in a
    ensures SplitLines(a + ("\n" + b)) == [a] + SplitLines(b)
  {
    var t := a + ("\n" + b);
    FirstNewlineOf(a, "\n" + b);
    assert t[..|a|] == a && t[|a| + 1..] == b;
  }

  lemma {:induction false} SplitNone(a: string)
    requires '\n' !in a
    ensures SplitLines(a) == [a]
  {
    FirstNewlineOf(a, "");
    assert a + "" == a;
  }

  lemma {:induction false} SplitTextNext(line: string, rest: seq<string>)
    requires '\n' !in line && SplitLines(Text(rest)) == rest + [""]
    ensures SplitLines(Text([line] + rest)) == [line] + rest + [""]
  {
    assert ([line] + rest)[1..] == rest && Text([line] + rest) == line + "\n" + Text(rest);
    assert line + "\n" + Text(rest) == line + ("\n" + Text(rest));
    SplitFirst(line, Text(rest));
  }

  /** A text splits into its lines and the empty rest behind the last newline. */
  lemma {:induction false} SplitText(lines: seq<string>)
    requires forall line <- lines :: '\n' !in line
    ensures SplitLines(Text(lines)) == lines + [""]
  {
    if lines == [] {
      SplitNone("");
    } else {
      SplitText(lines[1..]);
      assert lines[0] in lines && lines == [lines[0]] + lines[1..];
      SplitTextNext(lines[0], lines[1..]);
    }
  }

  // --- Integers ---

  const MIN_INT: int := -0x8000_0000_0000_0000
  const MAX_INT: int := 0x7fff_ffff_ffff_ffff

  predicate IsDigit(c: char) { '0' <= c <= '9' }

  function Digit(d: nat): char
    requires d < 10
  {
    '0' + d as char
  }

  function Digits(n: nat): (s: string)
    ensures s != "" && forall c <- s :: IsDigit(c)
  {
    if n < 10 then [Digit(n)] else Digits(n / 10) + [Digit(n % 10)]
  }

  function Itoa(n: int): string {
    if n < 0 then "-" + Digits(-n) else Digits(n)
  }

  function Value(s: string): nat
    requires forall c <- s :: IsDigit(c)
  {
    if s == "" then 0 else assert IsDigit(s[|s| - 1]); 10 * Value(s[..|s| - 1]) + (s[|s| - 1] as int - '0' as int)
  }

  /** `strconv.Atoi` for a 64-bit int: an optional sign, then digits, in range. */
  function Atoi(s: string): Option<int> {
    var signed := s != "" && (s[0] == '-' || s[0] == '+');
    var digits := if signed then s[1..] else s;
    if digits == "" || exists c <- digits :: !IsDigit(c) then None
    else
      var magnitude: int := Value(digits);
      var n := if signed && s[0] == '-' then -magnitude else magnitude;
      if MIN_INT <= n <= MAX_INT then Some(n) else None
  }

  lemma {:induction false} ValueOfDigits(n: nat)
    ensures Value(Digits(n)) == n
  {
    if n >= 10 {
      var front := Digits(n / 10);
      ValueOfDigits(n / 10);
      assert (front + [Digit(n % 10)])[..|front|] == front;
    } else {
      assert [Digit(n)][..0] == "";
    }
  }

  lemma DigitsDontSign(n: nat)
    ensures Digits(n)[0] != '-' && Digits(n)[0] != '+'
  {
    assert Digits(n)[0] in Digits(n);
  }

  lemma {:induction false} AtoiOfItoa(n: int)
    requires MIN_INT <= n <= MAX_INT
    ensures Atoi(Itoa(n)) == Some(n)
  {
    var magnitude: int := if n < 0 then -n else n;
    ValueOfDigits(magnitude);
    DigitsDontSign(magnitude);
    if n < 0 { assert Itoa(n)[1..] == Digits(magnitude); }
  }

  lemma {:induction false} ItoaIsPlain(n: int)
    ensures IsWord(Itoa(n)) && ':' !in Itoa(n)
  {
  }

  predicate AllDigits(s: string) { s != "" && forall c <- s :: IsDigit(c) }

  /** Digits are read in base ten, most significant first. */
  lemma ValueIsDecimal(digits: string, d: nat)
    requires (forall c <- digits :: '0' <= c <= '9') && d < 10
    ensures Value("") == 0 && '0' <= Digit(d) <= '9' && Digit(d) as int - '0' as int == d
    ensures Value(digits + [Digit(d)]) == 10 * Value(digits) + d
  {
    assert (digits + [Digit(d)])[..|digits|] == digits;
  }

  function Ranged(n: int): Option<int> {
    if -0x8000_0000_0000_0000 <= n <= 0x7fff_ffff_ffff_ffff then Some(n) else None
  }

  /** What `Atoi` reads: digits, with or without a sign, of a number that fits 64 bits. */
  lemma {:induction false} AtoiReads(digits: string)
    requires AllDigits(digits)
    ensures Atoi(digits) == Ranged(Value(digits)) && Atoi("+" + digits) == Ranged(Value(digits))
    ensures Atoi("-" + digits) == Ranged(-(Value(digits) as int))
  {
    assert digits[0] in digits;
    assert ("+" + digits)[1..] == digits && ("-" + digits)[1..] == digits;
  }

  /** And nothing else. */
  lemma {:induction false} AtoiReadsOnly(s: string)
    requires Atoi(s).Some?
    ensures AllDigits(s) || (AllDigits(s[1..]) && (s == "+" + s[1..] || s == "-" + s[1..]))
    ensures ':' !in s
  {
    if s != "" && (s[0] == '-' || s[0] == '+') {
      assert s == [s[0]] + s[1..];
    }
  }

  // --- strings.SplitN(s, ":", 2) ---

  function FirstColon(s: string): (i: nat)
    ensures i <= |s| && ':' !in s[..i] && (i < |s| ==> s[i] == ':')
  {
    if s == "" || s[0] == ':' then 0 else 1 + FirstColon(s[1..])
  }

  lemma {:induction false} FirstColonOf(a: string, b: string)
    requires ':' !in a
    ensures FirstColon(a + ":" + b) == |a|
  {
    if a != "" {
      assert a[0] in a && (a + ":" + b)[1..] == a[1..] + ":" + b;
      FirstColonOf(a[1..], b);
    }
  }
}

/** The strict parser of mount-inspector, the lenient parser of kube-inspect, and the kernel's format. */
module MountInfo {
  import opened GoStrings

  datatype Mount = Mount(mountID: int, parentID: int, major: int, minor: int,
                         root: string, mountPoint: string, options: string, optional: seq<string>,
                         fsType: string, source: string, superOptions: string)

  /** kube-inspect keeps neither the device numbers nor the optional fields. */
  datatype PodMount = PodMount(mountID: int, parentID: int, root: string, mountPoint: string, options: string,
                               fsType: string, source: string, superOpts: string)

  datatype Error = TooShort | BadMountID | BadParentID | BadDevice | BadMajor | BadMinor
                 | MissingSeparator | MissingFields

  datatype Result<+T> = Ok(value: T) | Err(error: Error)

  // --- What each parser accepts, field by field ---

  /** The first lone "-" from `i` on, or the number of fields. */
  function Separator(fields: seq<string>, i: nat): (k: nat)
    requires i <= |fields|
    ensures i <= k <= |fields| && "-" !in fields[i..k] && (k < |fields| ==> fields[k] == "-")
    decreases |fields| - i
  {
    if i == |fields| || fields[i] == "-" then i else Separator(fields, i + 1)
  }

  function Device(field: string): Result<(int, int)> {
    var colon := FirstColon(field);
    if colon == |field| then Err(BadDevice)
    else if Atoi(field[..colon]).None? then Err(BadMajor)
    else if Atoi(field[colon + 1..]).None? then Err(BadMinor)
    else Ok((Atoi(field[..colon]).value, Atoi(field[colon + 1..]).value))
  }

  /** The columns before the optional fields. */
  function Head(fields: seq<string>): Result<Mount> {
    if |fields| < 10 then Err(TooShort)
    else if Atoi(fields[0]).None? then Err(BadMountID)
    else if Atoi(fields[1]).None? then Err(BadParentID)
    else if Device(fields[2]).Err? then Err(Device(fields[2]).error)
    else Ok(Mount(Atoi(fields[0]).value, Atoi(fields[1]).value,
                  Device(fields[2]).value.0, Device(fields[2]).value.1,
                  fields[3], fields[4], fields[5], [], "", "", ""))
  }

  /** From the optional fields on. */
  function Tail(head: Mount, fields: seq<string>): Result<Mount>
    requires |fields| >= 6
  {
    var sep := Separator(fields, 6);
    if sep == |fields| then Err(MissingSeparator)
    else if sep + 3 >= |fields| then Err(MissingFields)
    else Ok(head.(optional := fields[6..sep],
                  fsType := fields[sep + 1], source := fields[sep + 2], superOptions := fields[sep + 3]))
  }

  function Strict(fields: seq<string>): Result<Mount> {
    if Head(fields).Err? then Head(fields) else Tail(Head(fields).value, fields)
  }

  function Lenient(fields: seq<string>): Result<PodMount> {
    if |fields| < 7 then Err(TooShort)
    else if Atoi(fields[0]).None? then Err(BadMountID)
    else if Atoi(fields[1]).None? then Err(BadParentID)
    else
      var sep := Separator(fields, 6);
      if sep + 4 > |fields| then Err(MissingSeparator)
      else Ok(PodMount(Atoi(fields[0]).value, Atoi(fields[1]).value, fields[3], fields[4], fields[5],
                       fields[sep + 1], fields[sep + 2], fields[sep + 3]))
  }

  // --- The two parsers as written ---

  method ParseHead(fields: seq<string>) returns (r: Result<Mount>)
    ensures r == Head(fields)
  {
    if |fields| < 10 {
      return Err(TooShort);
    }
    var mi := Mount(0, 0, 0, 0, "", "", "", [], "", "", "");
    var v := Atoi(fields[0]);
    if v.None? {
      return Err(BadMountID);
    }
    mi := mi.(mountID := v.value);
    v := Atoi(fields[1]);
    if v.None? {
      return Err(BadParentID);
    }
    mi := mi.(parentID := v.value);
    var colon := FirstColon(fields[2]);
    if colon == |fields[2]| {
      return Err(BadDevice);
    }
    v := Atoi(fields[2][..colon]);
    if v.None? {
      return Err(BadMajor);
    }
    mi := mi.(major := v.value);
    v := Atoi(fields[2][colon + 1..]);
    if v.None? {
      return Err(BadMinor);
    }
    mi := mi.(minor := v.value);
    mi := mi.(root := fields[3], mountPoint := fields[4], options := fields[5]);
    return Ok(mi);
  }

  method ParseTail(head: Mount, fields: seq<string>) returns (r: Result<Mount>)
    requires |fields| >= 6 && head.optional == []
    ensures r == Tail(head, fields)
  {
    var mi := head;
    var i := 6;
    while i < |fields| && fields[i] != "-"
      invariant 6 <= i <= |fields| && Separator(fields, i) == Separator(fields, 6)
      invariant mi == head.(optional := fields[6..i])
    {
      mi := mi.(optional := mi.optional + [fields[i]]);
      i := i + 1;
    }
    if i >= |fields| || fields[i] != "-" {
      return Err(MissingSeparator);
    }
    i := i + 1;
    if i + 2 >= |fields| {
      return Err(MissingFields);
    }
    mi := mi.(fsType := fields[i], source := fields[i + 1], superOptions := fields[i + 2]);
    return Ok(mi);
  }

  method ParseMountInfo(line: string) returns (r: Result<Mount>)
    ensures r == Strict(Fields(line))
  {
    var fields := Fields(line);
    r := ParseHead(fields);
    if r.Ok? {
      r := ParseTail(r.value, fields);
    }
  }

  method ParseMountInfoLine(line: string) returns (r: Result<PodMount>)
    ensures r == Lenient(Fields(line))
  {
    var fields := Fields(line);
    if |fields| < 7 {
      return Err(TooShort);
    }
    var mountID := Atoi(fields[0]);
    if mountID.None? {
      return Err(BadMountID);
    }
    var parentID := Atoi(fields[1]);
    if parentID.None? {
      return Err(BadParentID);
    }
    var sepIdx := -1;
    for i := 6 to |fields|
      invariant sepIdx == -1 && Separator(fields, i) == Separator(fields, 6)
    {
      if fields[i] == "-" {
        sepIdx := i;
        break;
      }
    }
    if sepIdx == -1 || |fields| < sepIdx + 4 {
      return Err(MissingSeparator);
    }
    return Ok(PodMount(mountID.value, parentID.value, fields[3], fields[4], fields[5],
                       fields[sepIdx + 1], fields[sepIdx + 2], fields[sepIdx + 3]));
  }

  // --- How they relate ---

  function PodView(m: Mount): PodMount {
    PodMount(m.mountID, m.parentID, m.root, m.mountPoint, m.options, m.fsType, m.source, m.superOptions)
  }

  /** Two integers with a colon between. */
  ghost predicate IsIntPair(field: string) {
    exists a: string, b: string :: field == a + ":" + b && Atoi(a).Some? && Atoi(b).Some?
  }

  lemma {:induction false} DeviceOf(a: string, b: string)
    requires Atoi(a).Some? && Atoi(b).Some?
    ensures Device(a + ":" + b) == Ok((Atoi(a).value, Atoi(b).value))
  {
    AtoiReadsOnly(a);
    FirstColonOf(a, b);
    assert (a + ":" + b)[..|a|] == a && (a + ":" + b)[|a| + 1..] == b;
  }

  lemma {:induction false} DeviceIsIntPair(field: string)
    ensures Device(field).Ok? <==> IsIntPair(field)
  {
    if Device(field).Ok? {
      var colon := FirstColon(field);
      assert field == field[..colon] + ":" + field[colon + 1..];
    }
    if IsIntPair(field) {
      var a: string, b: string :| field == a + ":" + b && Atoi(a).Some? && Atoi(b).Some?;
      DeviceOf(a, b);
    }
  }

  /** On every line the strict parser accepts exactly what the lenient one accepts with an integer:integer
      device, and then they agree on every shared field. */
  lemma {:induction false} StrictIsLenientPlusDevice(line: string)
    ensures var fields := Fields(line);
            && (Strict(fields).Ok? <==> Lenient(fields).Ok? && IsIntPair(fields[2]))
            && (Strict(fields).Ok? ==> Lenient(fields) == Ok(PodView(Strict(fields).value)))
  {
    var fields := Fields(line);
    if |fields| >= 7 {
      DeviceIsIntPair(fields[2]);
      assert Separator(fields, 6) >= 6;
    }
  }

  /** The first lone "-" behind the six fixed columns, with three columns after it. */
  ghost predicate SeparatesAt(fields: seq<string>, k: int) {
    6 <= k < |fields| - 3 && fields[k] == "-" && forall i :: 6 <= i < k ==> fields[i] != "-"
  }

  lemma {:induction false} SeparatorSkips(fields: seq<string>)
    requires |fields| >= 6
    ensures forall i :: 6 <= i < Separator(fields, 6) ==> fields[i] != "-"
  {
    var sep := Separator(fields, 6);
    forall i | 6 <= i < sep ensures fields[i] != "-" {
      assert fields[i] == fields[6..sep][i - 6];
    }
  }

  lemma {:induction false} SeparatorIs(fields: seq<string>, k: int)
    requires SeparatesAt(fields, k)
    ensures Separator(fields, 6) == k
  {
    SeparatorSkips(fields);
  }

  /** The lenient parser reads a mount exactly off the columns around the separator. */
  lemma {:induction false} LenientReads(fields: seq<string>, m: PodMount)
    ensures Lenient(fields) == Ok(m) <==>
              exists k: int :: SeparatesAt(fields, k)
                && Atoi(fields[0]) == Some(m.mountID) && Atoi(fields[1]) == Some(m.parentID)
                && m.root == fields[3] && m.mountPoint == fields[4] && m.options == fields[5]
                && m.fsType == fields[k + 1] && m.source == fields[k + 2] && m.superOpts == fields[k + 3]
  {
    if Lenient(fields) == Ok(m) {
      SeparatorSkips(fields);
      assert SeparatesAt(fields, Separator(fields, 6));
    }
    forall k: int | SeparatesAt(fields, k) ensures Separator(fields, 6) == k { SeparatorIs(fields, k); }
  }

  /** The strict parser does the same, and keeps the device numbers and the optional fields as well. */
  lemma {:induction false} StrictReads(fields: seq<string>, m: Mount)
    ensures Strict(fields) == Ok(m) <==>
              exists k: int :: SeparatesAt(fields, k)
                && Atoi(fields[0]) == Some(m.mountID) && Atoi(fields[1]) == Some(m.parentID)
                && Device(fields[2]) == Ok((m.major, m.minor))
                && m.root == fields[3] && m.mountPoint == fields[4] && m.options == fields[5]
                && m.optional == fields[6..k]
                && m.fsType == fields[k + 1] && m.source == fields[k + 2] && m.superOptions == fields[k + 3]
  {
    if Strict(fields) == Ok(m) {
      SeparatorSkips(fields);
      assert SeparatesAt(fields, Separator(fields, 6));
    }
    forall k: int | SeparatesAt(fields, k) ensures Separator(fields, 6) == k { SeparatorIs(fields, k); }
  }

  /** Which check a refused line fails first. */
  lemma {:induction false} WhyRefused(fields: seq<string>)
    ensures Strict(fields) == Err(TooShort) <==> |fields| < 10
    ensures Strict(fields) == Err(BadMountID) <==> |fields| >= 10 && Atoi(fields[0]).None?
    ensures Strict(fields) == Err(BadParentID) <==> |fields| >= 10 && Atoi(fields[0]).Some? && Atoi(fields[1]).None?
    ensures Strict(fields) == Err(MissingSeparator) <==> Head(fields).Ok? && "-" !in fields[6..]
    ensures Lenient(fields) == Err(TooShort) <==> |fields| < 7
    ensures Lenient(fields) == Err(MissingSeparator) <==>
              && |fields| >= 7 && Atoi(fields[0]).Some? && Atoi(fields[1]).Some?
              && !exists k :: SeparatesAt(fields, k)
  {
    if |fields| >= 7 {
      var sep := Separator(fields, 6);
      if sep == |fields| {
        assert fields[6..sep] == fields[6..];
      } else {
        assert fields[6..][sep - 6] == "-";
      }
      SeparatorSkips(fields);
      assert sep + 3 < |fields| ==> SeparatesAt(fields, sep);
      forall k: int | SeparatesAt(fields, k) ensures sep == k { SeparatorIs(fields, k); }
    }
  }

  // --- The kernel's format ---

  predicate InRange(n: int) { MIN_INT <= n <= MAX_INT }

  /** A record every string of which is one non-empty word. The kernel escapes space, tab, newline and backslash;
      a mount point with one of the other space characters in it reads as several words and is not covered. */
  predicate Printable(m: Mount) {
    && InRange(m.mountID) && InRange(m.parentID) && InRange(m.major) && InRange(m.minor)
    && IsWord(m.root) && IsWord(m.mountPoint) && IsWord(m.options) && AreWords(m.optional)
    && IsWord(m.fsType) && IsWord(m.source) && IsWord(m.superOptions)
  }

  function Columns(m: Mount): seq<string> {
    [Itoa(m.mountID), Itoa(m.parentID), Itoa(m.major) + ":" + Itoa(m.minor), m.root, m.mountPoint, m.options]
    + m.optional + ["-", m.fsType, m.source, m.superOptions]
  }

  function Line(m: Mount): string { Join(Columns(m)) }

  lemma {:induction false} ColumnsAreWords(m: Mount)
    requires Printable(m)
    ensures AreWords(Columns(m))
  {
    ItoaIsPlain(m.mountID);
    ItoaIsPlain(m.parentID);
    ItoaIsPlain(m.major);
    ItoaIsPlain(m.minor);
    assert IsWord("-");
  }

  lemma {:induction false} DevicePrintsBack(major: int, minor: int)
    requires InRange(major) && InRange(minor)
    ensures Device(Itoa(major) + ":" + Itoa(minor)) == Ok((major, minor))
  {
    var a, b := Itoa(major), Itoa(minor);
    ItoaIsPlain(major);
    FirstColonOf(a, b);
    AtoiOfItoa(major);
    AtoiOfItoa(minor);
    assert (a + ":" + b)[..|a|] == a && (a + ":" + b)[|a| + 1..] == b;
  }

  lemma ColumnsFromSix(m: Mount)
    ensures var fields, end := Columns(m), 6 + |m.optional|;
            && |fields| == end + 4 && fields[end] == "-" && fields[6..end] == m.optional
            && forall j :: 0 <= j < |m.optional| ==> fields[6 + j] == m.optional[j]
  {
  }

  /** The parser's separator is the printed one exactly when no optional field is a lone "-". */
  lemma {:induction false} SeparatorOfColumns(m: Mount)
    ensures var fields, end := Columns(m), 6 + |m.optional|;
            && |fields| == end + 4 && 6 <= Separator(fields, 6) <= end
            && fields[6..end] == m.optional
            && (Separator(fields, 6) == end <==> "-" !in m.optional)
  {
    ColumnsFromSix(m);
    SeparatorEnds(Columns(m), m.optional);
  }

  lemma {:induction false} SeparatorEnds(fields: seq<string>, optional: seq<string>)
    requires |fields| > 6 + |optional| && fields[6 + |optional|] == "-"
    requires forall j :: 0 <= j < |optional| ==> fields[6 + j] == optional[j]
    ensures Separator(fields, 6) <= 6 + |optional|
    ensures Separator(fields, 6) == 6 + |optional| <==> "-" !in optional
  {
    SeparatorSkips(fields);
    var sep := Separator(fields, 6);
    if sep < 6 + |optional| { assert fields[6 + (sep - 6)] == optional[sep - 6]; }
  }

  lemma {:induction false} HeadOfColumns(m: Mount)
    requires Printable(m)
    ensures Head(Columns(m)) == Ok(m.(optional := [], fsType := "", source := "", superOptions := ""))
  {
    AtoiOfItoa(m.mountID);
    AtoiOfItoa(m.parentID);
    DevicePrintsBack(m.major, m.minor);
  }

  lemma {:induction false} TailOfColumns(m: Mount, head: Mount)
    requires head == m.(optional := [], fsType := "", source := "", superOptions := "")
    ensures Tail(head, Columns(m)) == Ok(m) <==> "-" !in m.optional
  {
    SeparatorOfColumns(m);
    var r := Tail(head, Columns(m));
    if "-" in m.optional && r.Ok? {
      assert |r.value.optional| < |m.optional|;
    }
  }

  /** Printing a record and parsing the line gives the record back exactly when no optional field is a lone
      "-"; root, mount point, options and the last three fields may be anything. */
  lemma {:induction false} PrintThenParse(m: Mount)
    requires Printable(m)
    ensures Strict(Fields(Line(m))) == Ok(m) <==> "-" !in m.optional
    ensures "-" !in m.optional ==> Lenient(Fields(Line(m))) == Ok(PodView(m))
  {
    ColumnsAreWords(m);
    FieldsOfJoin(Columns(m));
    HeadOfColumns(m);
    TailOfColumns(m, Head(Columns(m)).value);
    StrictIsLenientPlusDevice(Line(m));
  }

  // --- Whole tables ---

  /** What the pod reader keeps: the accepted lines, in order. */
  function AcceptedLines(lines: seq<string>): seq<PodMount> {
    if lines == [] then []
    else
      var last := Lenient(Fields(lines[|lines| - 1]));
      AcceptedLines(lines[..|lines| - 1]) + if last.Ok? then [last.value] else []
  }

  /** The table reader, on the text of `/proc/<pid>/mountinfo`. */
  method ListPodMounts(data: string) returns (mounts: seq<PodMount>)
    ensures mounts == AcceptedLines(SplitLines(TrimSpace(data)))
  {
    var lines := SplitLines(TrimSpace(data));
    mounts := [];
    for k := 0 to |lines|
      invariant mounts == AcceptedLines(lines[..k])
    {
      assert lines[..k + 1][..k] == lines[..k];
      if lines[k] == "" {
        assert AcceptedLines(lines[..k + 1]) == AcceptedLines(lines[..k]) + [];
        continue;
      }
      var m := ParseMountInfoLine(lines[k]);
      if m.Err? {
        assert AcceptedLines(lines[..k + 1]) == AcceptedLines(lines[..k]) + [];
        continue;
      }
      mounts := mounts + [m.value];
    }
    assert lines[..|lines|] == lines;
  }

  lemma AcceptedOne(line: string)
    ensures AcceptedLines([line]) == var m := Lenient(Fields(line)); if m.Ok? then [m.value] else []
  {
    assert [line][..0] == [];
    assert AcceptedLines([line][..0]) == [];
  }

  lemma AcceptedLast(lines: seq<string>, line: string)
    ensures AcceptedLines(lines + [line]) == AcceptedLines(lines) + AcceptedLines([line])
  {
    AcceptedOne(line);
    assert (lines + [line])[..|lines|] == lines;
  }

  /** What is kept of a text is kept of its parts: each line counts on its own, wherever it stands. */
  lemma {:induction false} AcceptedLinesSplit(a: seq<string>, b: seq<string>)
    ensures AcceptedLines(a + b) == AcceptedLines(a) + AcceptedLines(b)
  {
    if b == [] {
      assert a + b == a;
    } else {
      var front, last := b[..|b| - 1], b[|b| - 1];
      assert b == front + [last] && a + b == (a + front) + [last];
      AcceptedLinesSplit(a, front);
      AcceptedLast(a + front, last);
      AcceptedLast(front, last);
    }
  }

  lemma AcceptedSame(line: string, other: string)
    requires Fields(line) == Fields(other)
    ensures AcceptedLines([line]) == AcceptedLines([other])
  {
    AcceptedOne(line);
    AcceptedOne(other);
  }

  lemma {:induction false} AcceptedBlank(lines: seq<string>)
    ensures AcceptedLines([""] + lines) == AcceptedLines(lines) == AcceptedLines(lines + [""])
  {
    AcceptedOne("");
    assert Lenient(Fields("")) == Err(TooShort);
    AcceptedLinesSplit([""], lines);
    AcceptedLinesSplit(lines, [""]);
  }

  function Kept(text: string): seq<PodMount> { AcceptedLines(SplitLines(text)) }

  lemma {:induction false} KeptFirst(line: string, rest: string)
    requires '\n' !in line
    ensures Kept(line + ("\n" + rest)) == AcceptedLines([line]) + Kept(rest)
  {
    SplitFirst(line, rest);
    AcceptedLinesSplit([line], SplitLines(rest));
  }

  lemma {:induction false} LeadingSpace(c: char, s: string)
    requires IsSpace(c)
    ensures Kept([c] + s) == Kept(s)
  {
    if c == '\n' {
      assert [c] + s == "" + ("\n" + s);
      SplitFirst("", s);
      AcceptedBlank(SplitLines(s));
    } else {
      var k := FirstNewline(s);
      if k == |s| {
        IndentedLine(c, s, "");
      } else {
        IndentedLine(c, s[..k], s[k + 1..]);
        CutAt(s, k);
        CutAt([c] + s, k + 1);
        assert ([c] + s)[..k + 1] == [c] + s[..k] && ([c] + s)[k + 2..] == s[k + 1..];
      }
    }
  }

  lemma CutAt(s: string, k: nat)
    requires k < |s| && s[k] == '\n'
    ensures s == s[..k] + ("\n" + s[k + 1..])
  {
    assert "\n" + s[k + 1..] == s[k..];
  }

  lemma {:induction false} IndentedLine(c: char, line: string, rest: string)
    requires IsSpace(c) && c != '\n' && '\n' !in line
    ensures Kept([c] + line) == Kept(line)
    ensures Kept(([c] + line) + ("\n" + rest)) == Kept(line + ("\n" + rest))
  {
    FieldsOfSpace(c, line);
    AcceptedSame([c] + line, line);
    SplitNone(line);
    SplitNone([c] + line);
    KeptFirst(line, rest);
    KeptFirst([c] + line, rest);
  }

  lemma {:induction false} TrailingSpace(s: string, c: char)
    requires IsSpace(c)
    ensures Kept(s + [c]) == Kept(s)
    decreases |s|
  {
    var k := FirstNewline(s);
    var line := s[..k];
    if k < |s| {
      var rest := s[k + 1..];
      CutAt(s, k);
      assert s + [c] == line + ("\n" + (rest + [c]));
      KeptFirst(line, rest);
      KeptFirst(line, rest + [c]);
      TrailingSpace(rest, c);
    } else {
      assert line == s;
      SplitNone(s);
      if c == '\n' {
        assert s + [c] == s + ("\n" + "");
        SplitFirst(s, "");
        SplitNone("");
        AcceptedBlank([s]);
      } else {
        SplitNone(s + [c]);
        FieldsOfTrailing(s, c);
        AcceptedSame(s + [c], s);
      }
    }
  }

  lemma {:induction false} TrimLeftKeeps(s: string)
    ensures Kept(TrimLeft(s)) == Kept(s)
  {
    if s != "" && IsSpace(s[0]) {
      assert s == [s[0]] + s[1..];
      LeadingSpace(s[0], s[1..]);
      TrimLeftKeeps(s[1..]);
    }
  }

  lemma {:induction false} TrimRightKeeps(s: string)
    ensures Kept(TrimRight(s)) == Kept(s)
  {
    if s != "" && IsSpace(s[|s| - 1]) {
      assert s == s[..|s| - 1] + [s[|s| - 1]];
      TrailingSpace(s[..|s| - 1], s[|s| - 1]);
      TrimRightKeeps(s[..|s| - 1]);
    }
  }

  /** Trimming the text first makes no difference to what is kept. */
  lemma {:induction false} TrimIsHarmless(data: string)
    ensures AcceptedLines(SplitLines(TrimSpace(data))) == AcceptedLines(SplitLines(data))
  {
    TrimLeftKeeps(data);
    TrimRightKeeps(TrimLeft(data));
  }

  /** A line of a table: a printed record, or one the lenient parser refuses. */
  datatype Row = Printed(mount: Mount) | Refused(line: string)

  predicate RowOk(r: Row) {
    match r
    case Printed(m) => Printable(m) && "-" !in m.optional
    case Refused(line) => '\n' !in line && Lenient(Fields(line)).Err?
  }

  function RowLines(rows: seq<Row>): seq<string> {
    if rows == [] then [] else [if rows[0].Printed? then Line(rows[0].mount) else rows[0].line] + RowLines(rows[1..])
  }

  function PrintedMounts(rows: seq<Row>): seq<PodMount> {
    if rows == [] then []
    else (if rows[0].Printed? then [PodView(rows[0].mount)] else []) + PrintedMounts(rows[1..])
  }

  lemma {:induction false} JoinIsOneLine(ws: seq<string>)
    requires AreWords(ws)
    ensures '\n' !in Join(ws)
  {
    if ws != [] {
      assert IsWord(ws[0]) && IsSpace('\n');
      if |ws| > 1 { JoinIsOneLine(ws[1..]); }
    }
  }

  lemma {:induction false} RowsReadBack(rows: seq<Row>)
    requires forall r <- rows :: RowOk(r)
    ensures AcceptedLines(RowLines(rows)) == PrintedMounts(rows)
    ensures forall line <- RowLines(rows) :: '\n' !in line
  {
    if rows != [] {
      var first, rest := RowLines(rows)[0], RowLines(rows[1..]);
      assert RowOk(rows[0]);
      if rows[0].Printed? {
        PrintThenParse(rows[0].mount);
        ColumnsAreWords(rows[0].mount);
        JoinIsOneLine(Columns(rows[0].mount));
      }
      RowsReadBack(rows[1..]);
      AcceptedLinesSplit([first], rest);
      AcceptedOne(first);
    }
  }

  /** The text of a table, newlines and all, reads back as the pod's view of every printed record in it, in
      order, whatever refused lines stand before, between and after them. */
  lemma {:induction false} TableReadsBack(rows: seq<Row>)
    requires forall r <- rows :: RowOk(r)
    ensures AcceptedLines(SplitLines(TrimSpace(Text(RowLines(rows))))) == PrintedMounts(rows)
  {
    RowsReadBack(rows);
    TrimIsHarmless(Text(RowLines(rows)));
    SplitText(RowLines(rows));
    AcceptedBlank(RowLines(rows));
  }
}
