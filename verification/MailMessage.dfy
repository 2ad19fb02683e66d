/** Mail export and reply derivation (packages/profiles/src/mail-message.ts:87-171).

    A message is its header lines, an empty line and the body, joined by CRLF. The
    original only writes messages; looking a field up and splitting the header part
    from the body are defined here, as a reader would do them, to say that what was
    written can be read. The date is the text `Date.prototype.toUTCString` gives. */
module MailMessage {
  import opened Strings

  datatype Option<T> = None | Some(value: T)

  datatype Payload = Payload(
    from: Option<seq<string>>,
    to: Option<seq<string>>,
    cc: Option<seq<string>>,
    bcc: Option<seq<string>>,
    subject: Option<string>,
    utcDate: Option<string>,
    rfcMessageId: Option<string>,
    inReplyTo: Option<string>,
    bodyText: Option<string>)

  const CRLF := "\r\n"

  predicate IsBreak(c: char)
  {
    c == '\r' || c == '\n'
  }

  predicate NoBreaks(s: string)
  {
    forall i :: 0 <= i < |s| ==> !IsBreak(s[i])
  }

  // ---- Rendering ------------------------------------------------------------------

  /** The string after its leading run of line-break characters. */
  function SkipBreaks(s: string): (r: string)
    ensures |r| <= |s|
    ensures r != "" ==> !IsBreak(r[0])
  {
    if s != "" && IsBreak(s[0]) then SkipBreaks(s[1..]) else s
  }

  /** `value.replace(/[\r\n]+/g, ' ')` */
  function SanitizeHeader(s: string): (r: string)
    ensures NoBreaks(r)
    ensures NoBreaks(s) ==> r == s
    decreases |s|
  {
    if s == "" then ""
    else if IsBreak(s[0]) then " " + SanitizeHeader(SkipBreaks(s[1..]))
    else
      assert s == [s[0]] + s[1..];
      [s[0]] + SanitizeHeader(s[1..])
  }

  function SanitizeAll(values: seq<string>): (r: seq<string>)
    ensures |r| == |values|
  {
    seq(|values|, i requires 0 <= i < |values| => SanitizeHeader(values[i]))
  }

  /** `Array.prototype.join` */
  function JoinWith(parts: seq<string>, sep: string): string
  {
    if parts == [] then ""
    else if |parts| == 1 then parts[0]
    else parts[0] + sep + JoinWith(parts[1..], sep)
  }

  function Field(name: string, value: string): string
  {
    name + ": " + value
  }

  function HeaderLine(name: string, value: string): string
  {
    Field(name, SanitizeHeader(value))
  }

  function OptionalHeader(name: string, value: Option<string>): seq<string>
  {
    if value.None? then [] else [HeaderLine(name, value.value)]
  }

  function Joined(addresses: Option<seq<string>>): Option<string>
  {
    if addresses.None? then None else Some(JoinWith(SanitizeAll(addresses.value), ", "))
  }

  const FIXED_HEADERS := [Field("MIME-Version", "1.0"), Field("Content-Type", "text/plain; charset=utf-8"),
                          Field("Content-Transfer-Encoding", "8bit")]

  function AddressHeaders(p: Payload): seq<string>
  {
    OptionalHeader("From", Joined(p.from)) + OptionalHeader("To", Joined(p.to))
    + OptionalHeader("Cc", Joined(p.cc)) + OptionalHeader("Bcc", Joined(p.bcc))
  }

  function Headers(p: Payload): seq<string>
  {
    AddressHeaders(p)
    + OptionalHeader("Subject", p.subject) + OptionalHeader("Date", p.utcDate)
    + OptionalHeader("Message-ID", p.rfcMessageId) + OptionalHeader("In-Reply-To", p.inReplyTo)
    + FIXED_HEADERS
  }

  /** `text.replace(/\r\n|\r|\n/g, '\r\n')` */
  function NormalizeBreaks(s: string): string
    decreases |s|
  {
    if s == "" then ""
    else if |s| >= 2 && s[0] == '\r' && s[1] == '\n' then CRLF + NormalizeBreaks(s[2..])
    else if IsBreak(s[0]) then CRLF + NormalizeBreaks(s[1..])
    else [s[0]] + NormalizeBreaks(s[1..])
  }

  function Body(p: Payload): string
  {
    NormalizeBreaks(if p.bodyText.None? then "" else p.bodyText.value)
  }

  function RenderEml(p: Payload): string
  {
    JoinWith(Headers(p), CRLF) + CRLF + CRLF + Body(p)
  }

  /** The rendering as it is written: headers are pushed one after the other. */
  method RenderEmlLoop(p: Payload) returns (text: string)
    ensures text == RenderEml(p)
  {
    hide OptionalHeader, Joined, JoinWith, Body;
    var headers: seq<string> := [];
    headers := AddHeader(headers, "From", Joined(p.from));
    assert headers == OptionalHeader("From", Joined(p.from));
    headers := AddHeader(headers, "To", Joined(p.to));
    headers := AddHeader(headers, "Cc", Joined(p.cc));
    headers := AddHeader(headers, "Bcc", Joined(p.bcc));
    headers := AddHeader(headers, "Subject", p.subject);
    headers := AddHeader(headers, "Date", p.utcDate);
    headers := AddHeader(headers, "Message-ID", p.rfcMessageId);
    headers := AddHeader(headers, "In-Reply-To", p.inReplyTo);
    headers := headers + FIXED_HEADERS;
    text := JoinWith(headers, CRLF) + CRLF + CRLF + Body(p);
  }

  method AddHeader(headers: seq<string>, name: string, value: Option<string>) returns (r: seq<string>)
    ensures r == headers + OptionalHeader(name, value)
  {
    r := headers;
    if value.Some? {
      r := r + [HeaderLine(name, value.value)];
    }
  }

  // ---- Line endings -------------------------------------------------------------------

  /** CR and LF occur only as CRLF pairs (section 2.3 of RFC 5322). */
  predicate Paired(s: string)
  {
    && (forall i :: 0 <= i < |s| && s[i] == '\r' ==> i + 1 < |s| && s[i + 1] == '\n')
    && (forall i :: 0 <= i < |s| && s[i] == '\n' ==> i > 0 && s[i - 1] == '\r')
  }

  lemma PairedConcat(a: string, b: string)
    requires Paired(a) && Paired(b)
    ensures Paired(a + b)
  {
    var s := a + b;
    forall i | 0 <= i < |s| && s[i] == '\r' ensures i + 1 < |s| && s[i + 1] == '\n' {
      if i >= |a| {
        assert b[i - |a|] == '\r' && b[i - |a| + 1] == '\n';
      }
    }
    forall i | 0 <= i < |s| && s[i] == '\n' ensures i > 0 && s[i - 1] == '\r' {
      if i >= |a| {
        assert b[i - |a|] == '\n' && b[i - |a| - 1] == '\r';
      }
    }
  }

  lemma {:induction false} NormalizedIsPaired(s: string)
    ensures Paired(NormalizeBreaks(s))
    decreases |s|
  {
    if s != "" {
      var n := if |s| >= 2 && s[0] == '\r' && s[1] == '\n' then 2 else 1;
      NormalizedIsPaired(s[n..]);
      PairedConcat(if IsBreak(s[0]) then CRLF else [s[0]], NormalizeBreaks(s[n..]));
    }
  }

  /** The lines of a text in which any of CRLF, CR and LF ends a line. */
  function TextLines(s: string): (lines: seq<string>)
    ensures |lines| > 0
    decreases |s|
  {
    if s == "" then [""]
    else if |s| >= 2 && s[0] == '\r' && s[1] == '\n' then [""] + TextLines(s[2..])
    else if IsBreak(s[0]) then [""] + TextLines(s[1..])
    else
      var rest := TextLines(s[1..]);
      [[s[0]] + rest[0]] + rest[1..]
  }

  lemma LinesOfBreak(rest: string)
    ensures TextLines(CRLF + rest) == [""] + TextLines(rest)
  {
    assert (CRLF + rest)[2..] == rest;
  }

  lemma LinesOfOther(c: char, rest: string)
    requires !IsBreak(c)
    ensures TextLines([c] + rest) == [[c] + TextLines(rest)[0]] + TextLines(rest)[1..]
  {
    assert ([c] + rest)[1..] == rest;
  }

  /** Normalising keeps every line, and every break as a break. */
  lemma {:induction false} NormalizeKeepsLines(s: string)
    ensures TextLines(NormalizeBreaks(s)) == TextLines(s)
    decreases |s|
  {
    if s != "" {
      var n := if |s| >= 2 && s[0] == '\r' && s[1] == '\n' then 2 else 1;
      NormalizeKeepsLines(s[n..]);
      if IsBreak(s[0]) {
        LinesOfBreak(NormalizeBreaks(s[n..]));
      } else {
        LinesOfOther(s[0], NormalizeBreaks(s[1..]));
      }
    }
  }

  /** Normalising changes nothing exactly when the text is already paired. */
  lemma {:induction false} NormalizeFixesExactlyPaired(s: string)
    ensures NormalizeBreaks(s) == s <==> Paired(s)
    decreases |s|
  {
    if NormalizeBreaks(s) == s {
      NormalizedIsPaired(s);
    }
    if Paired(s) && s != "" {
      var n := if s[0] == '\r' then 2 else 1;
      var rest := s[n..];
      forall i | 0 <= i < |rest| ensures rest[i] == s[i + n] {}
      assert Paired(rest);
      NormalizeFixesExactlyPaired(rest);
      assert s == s[..n] + rest;
    }
  }

  lemma NormalizeIsIdempotent(s: string)
    ensures NormalizeBreaks(NormalizeBreaks(s)) == NormalizeBreaks(s)
  {
    NormalizedIsPaired(s);
    NormalizeFixesExactlyPaired(NormalizeBreaks(s));
  }

  lemma {:induction false} JoinedLinesPaired(lines: seq<string>)
    requires forall l :: l in lines ==> NoBreaks(l)
    ensures Paired(JoinWith(lines, CRLF))
    decreases |lines|
  {
    if |lines| >= 1 {
      assert lines[0] in lines;
      if |lines| > 1 {
        assert forall l :: l in lines[1..] ==> l in lines;
        JoinedLinesPaired(lines[1..]);
        PairedConcat(lines[0], CRLF);
        PairedConcat(lines[0] + CRLF, JoinWith(lines[1..], CRLF));
      }
    }
  }

  ghost predicate CleanLines(lines: seq<string>)
  {
    forall l :: l in lines ==> NoBreaks(l) && l != ""
  }

  lemma OptionalHeaderClean(name: string, value: Option<string>)
    requires NoBreaks(name)
    ensures CleanLines(OptionalHeader(name, value))
  {}

  lemma FieldClean(name: string, value: string)
    requires NoBreaks(name) && NoBreaks(value)
    ensures NoBreaks(Field(name, value)) && Field(name, value) != ""
  {}

  lemma FixedHeadersClean()
    ensures CleanLines(FIXED_HEADERS)
  {
    FieldClean("MIME-Version", "1.0");
    FieldClean("Content-Type", "text/plain; charset=utf-8");
    FieldClean("Content-Transfer-Encoding", "8bit");
    hide Field;
  }

  lemma HeaderNamesClean()
    ensures NoBreaks("From") && NoBreaks("To") && NoBreaks("Cc") && NoBreaks("Bcc") && NoBreaks("Subject")
    ensures NoBreaks("Date") && NoBreaks("Message-ID") && NoBreaks("In-Reply-To")
  {}

  lemma HeaderLinesHaveNoBreaks(p: Payload)
    ensures CleanLines(Headers(p))
    ensures |Headers(p)| >= 3
  {
    hide OptionalHeader, Joined, NoBreaks;
    HeaderNamesClean();
    OptionalHeaderClean("From", Joined(p.from));
    OptionalHeaderClean("To", Joined(p.to));
    OptionalHeaderClean("Cc", Joined(p.cc));
    OptionalHeaderClean("Bcc", Joined(p.bcc));
    OptionalHeaderClean("Subject", p.subject);
    OptionalHeaderClean("Date", p.utcDate);
    OptionalHeaderClean("Message-ID", p.rfcMessageId);
    OptionalHeaderClean("In-Reply-To", p.inReplyTo);
    FixedHeadersClean();
    assert CleanLines(AddressHeaders(p));
  }

  /** In the whole message CR and LF occur only as CRLF pairs. */
  lemma EmlIsPaired(p: Payload)
    ensures Paired(RenderEml(p))
  {
    HeaderLinesHaveNoBreaks(p);
    JoinedLinesPaired(Headers(p));
    NormalizedIsPaired(if p.bodyText.None? then "" else p.bodyText.value);
    var head := JoinWith(Headers(p), CRLF);
    PairedConcat(head, CRLF);
    PairedConcat(head + CRLF, CRLF);
    PairedConcat(head + CRLF + CRLF, Body(p));
  }

  // ---- Reading a message back ------------------------------------------------------------

  predicate HasAt(s: string, part: string, i: nat)
  {
    i + |part| <= |s| && s[i..i + |part|] == part
  }

  /** The first occurrence of a part, or the length of the string. */
  function FirstAt(s: string, part: string, from: nat): (i: nat)
    requires from <= |s|
    ensures from <= i <= |s|
    ensures i < |s| ==> HasAt(s, part, i)
    ensures forall j :: from <= j < i ==> !HasAt(s, part, j)
    decreases |s| - from
  {
    if from == |s| || HasAt(s, part, from) then from else FirstAt(s, part, from + 1)
  }

  /** Split on CRLF. */
  function SplitLines(s: string): seq<string>
    decreases |s|
  {
    var i := FirstAt(s, CRLF, 0);
    if i == |s| then [s] else [s[..i]] + SplitLines(s[i + 2..])
  }

  /** The header lines and the body around the first empty line. */
  function ReadEml(s: string): Option<(seq<string>, string)>
  {
    var i := FirstAt(s, CRLF + CRLF, 0);
    if i == |s| then None else Some((SplitLines(s[..i]), s[i + 4..]))
  }

  /** A field is its name, up to the first colon, and its value after ": ". */
  function ReadField(line: string): Option<(string, string)>
  {
    var i := IndexOf(line, ':');
    if i < 0 || i + 1 >= |line| || line[i + 1] != ' ' then None else Some((line[..i], line[i + 2..]))
  }

  lemma MismatchAt(s: string, part: string, i: nat, k: nat)
    requires k < |part| && i + k < |s| && s[i + k] != part[k]
    ensures !HasAt(s, part, i)
  {
    assert i + |part| <= |s| ==> s[i..i + |part|][k] == s[i + k];
  }

  lemma FirstBreakAfterLine(line: string, rest: string)
    requires NoBreaks(line)
    ensures FirstAt(line + CRLF + rest, CRLF, 0) == |line|
  {
    var s := line + CRLF + rest;
    assert HasAt(s, CRLF, |line|);
    forall j | 0 <= j < |line| ensures !HasAt(s, CRLF, j) {
      MismatchAt(s, CRLF, j, 0);
    }
  }

  lemma HasAtDrop(s: string, part: string, n: nat, i: nat)
    requires n <= i && n <= |s|
    ensures HasAt(s, part, i) <==> HasAt(s[n..], part, i - n)
  {
    assert i + |part| <= |s| ==> s[n..][i - n..i - n + |part|] == s[i..i + |part|];
  }

  lemma NoBreakNoMatch(s: string)
    requires NoBreaks(s)
    ensures SplitLines(s) == [s]
  {
    forall i | 0 <= i < |s| ensures !HasAt(s, CRLF, i) {
      MismatchAt(s, CRLF, i, 0);
    }
  }

  lemma SplitLinesCons(line: string, rest: string)
    requires NoBreaks(line)
    ensures SplitLines(line + CRLF + rest) == [line] + SplitLines(rest)
  {
    var s := line + CRLF + rest;
    FirstBreakAfterLine(line, rest);
    assert s[..|line|] == line && s[|line| + 2..] == rest;
  }

  lemma {:induction false} SplitJoinedLines(lines: seq<string>)
    requires |lines| > 0 && forall l :: l in lines ==> NoBreaks(l)
    ensures SplitLines(JoinWith(lines, CRLF)) == lines
    decreases |lines|
  {
    hide SplitLines, NoBreaks;
    assert lines[0] in lines;
    if |lines| == 1 {
      NoBreakNoMatch(lines[0]);
      assert lines == [lines[0]];
    } else {
      assert forall l :: l in lines[1..] ==> l in lines;
      SplitJoinedLines(lines[1..]);
      SplitLinesCons(lines[0], JoinWith(lines[1..], CRLF));
      assert lines == [lines[0]] + lines[1..];
    }
  }

  /** No empty line inside the joined headers, nor one formed with what follows. */
  lemma {:induction false} NoEarlyEmptyLine(lines: seq<string>, tail: string, j: nat)
    requires |lines| > 0 && forall l :: l in lines ==> NoBreaks(l) && l != ""
    requires j < |JoinWith(lines, CRLF)|
    ensures !HasAt(JoinWith(lines, CRLF) + tail, CRLF + CRLF, j)
    decreases |lines|
  {
    assert lines[0] in lines;
    var head := JoinWith(lines, CRLF);
    var s := head + tail;
    assert CRLF + CRLF == ['\r', '\n', '\r', '\n'];
    if j < |lines[0]| {
      assert s[j] == lines[0][j];
      MismatchAt(s, CRLF + CRLF, j, 0);
    } else {
      assert forall l :: l in lines[1..] ==> l in lines;
      var rest := JoinWith(lines[1..], CRLF);
      var n := |lines[0]| + 2;
      assert lines[1] in lines && rest != "" && rest[0] == lines[1][0];
      if j >= n {
        NoEarlyEmptyLine(lines[1..], tail, j - n);
        assert s == (lines[0] + CRLF) + (rest + tail);
        HasAtDrop(s, CRLF + CRLF, n, j);
        assert s[n..] == rest + tail;
        hide HasAt, JoinWith;
      } else {
        assert s[n] == rest[0];
        MismatchAt(s, CRLF + CRLF, j, n - j);
      }
    }
  }

  lemma EmptyLineAfter(head: string, body: string)
    ensures var s := head + CRLF + CRLF + body;
            |s| == |head| + 4 + |body|
            && HasAt(s, CRLF + CRLF, |head|) && s[..|head|] == head && s[|head| + 4..] == body
  {
    var s := head + CRLF + CRLF + body;
    assert s[|head|..|head| + 4] == CRLF + CRLF;
  }

  lemma NoEmptyLineBefore(lines: seq<string>, body: string)
    requires |lines| > 0 && CleanLines(lines)
    ensures forall j :: 0 <= j < |JoinWith(lines, CRLF)|
              ==> !HasAt(JoinWith(lines, CRLF) + CRLF + CRLF + body, CRLF + CRLF, j)
  {
    hide JoinWith, HasAt, NoBreaks;
    var head := JoinWith(lines, CRLF);
    var tail := CRLF + CRLF + body;
    assert head + CRLF + CRLF + body == head + tail;
    forall j | 0 <= j < |head| ensures !HasAt(head + tail, CRLF + CRLF, j) {
      NoEarlyEmptyLine(lines, tail, j);
    }
  }

  lemma ReadAt(s: string, n: nat)
    requires n + 4 <= |s| && HasAt(s, CRLF + CRLF, n)
    requires forall j :: 0 <= j < n ==> !HasAt(s, CRLF + CRLF, j)
    ensures ReadEml(s) == Some((SplitLines(s[..n]), s[n + 4..]))
  {
    hide HasAt, SplitLines, FirstAt;
    assert FirstAt(s, CRLF + CRLF, 0) == n;
  }

  lemma LinesReadBack(lines: seq<string>, body: string)
    requires |lines| > 0 && CleanLines(lines)
    ensures ReadEml(JoinWith(lines, CRLF) + CRLF + CRLF + body) == Some((lines, body))
  {
    hide JoinWith, SplitLines, HasAt, NoBreaks, ReadEml;
    var head := JoinWith(lines, CRLF);
    EmptyLineAfter(head, body);
    NoEmptyLineBefore(lines, body);
    ReadAt(head + CRLF + CRLF + body, |head|);
    SplitJoinedLines(lines);
  }

  /** The first empty line of a rendered message separates exactly its header list
      from its normalised body, and splitting the header part gives back every line. */
  lemma EmlReadsBack(p: Payload)
    ensures ReadEml(RenderEml(p)).Some?
    ensures var (lines, body) := ReadEml(RenderEml(p)).value;
            var text := if p.bodyText.Some? then p.bodyText.value else "";
            lines == Headers(p) && body == NormalizeBreaks(text) && TextLines(body) == TextLines(text)
  {
    NormalizeKeepsLines(if p.bodyText.Some? then p.bodyText.value else "");
    HeaderLinesHaveNoBreaks(p);
    LinesReadBack(Headers(p), Body(p));
  }

  /** A field line reads back as its name and its value. */
  lemma FieldReadsBack(name: string, value: string)
    requires ':' !in name
    ensures ReadField(Field(name, value)) == Some((name, value))
  {
    var line := Field(name, value);
    assert line == name + [':'] + (" " + value);
    IndexOfFirst(name, ':', " " + value);
    assert line[..|name|] == name && line[|name| + 2..] == value;
  }

  /** The value of the first field of a name. */
  function Lookup(lines: seq<string>, name: string): Option<string>
  {
    if lines == [] then None
    else if ReadField(lines[0]).Some? && ReadField(lines[0]).value.0 == name then Some(ReadField(lines[0]).value.1)
    else Lookup(lines[1..], name)
  }

  lemma {:induction false} LookupConcat(a: seq<string>, b: seq<string>, name: string)
    ensures Lookup(a + b, name) == if Lookup(a, name).Some? then Lookup(a, name) else Lookup(b, name)
    decreases |a|
  {
    if a == [] {
      assert a + b == b;
    } else {
      assert (a + b)[1..] == a[1..] + b;
      LookupConcat(a[1..], b, name);
    }
  }

  function SanitizedOption(value: Option<string>): Option<string>
  {
    if value.None? then None else Some(SanitizeHeader(value.value))
  }

  lemma LookupOptional(header: string, value: Option<string>, name: string)
    requires ':' !in header
    ensures Lookup(OptionalHeader(header, value), name) == if header == name then SanitizedOption(value) else None
  {
    if value.Some? {
      FieldReadsBack(header, SanitizeHeader(value.value));
      assert OptionalHeader(header, value)[1..] == [];
    }
  }

  /** What the payload says under a header name. */
  function FieldOf(p: Payload, name: string): Option<string>
  {
    if name == "From" then Joined(p.from)
    else if name == "To" then Joined(p.to)
    else if name == "Cc" then Joined(p.cc)
    else if name == "Bcc" then Joined(p.bcc)
    else if name == "Subject" then p.subject
    else if name == "Date" then p.utcDate
    else if name == "Message-ID" then p.rfcMessageId
    else if name == "In-Reply-To" then p.inReplyTo
    else None
  }

  predicate IsFixedName(name: string)
  {
    name == "MIME-Version" || name == "Content-Type" || name == "Content-Transfer-Encoding"
  }

  lemma NoneStaysNone(value: Option<string>)
    ensures SanitizedOption(value).None? <==> value.None?
  {}

  lemma LookupAddresses(p: Payload, name: string)
    ensures Lookup(AddressHeaders(p), name) ==
            if name == "From" || name == "To" || name == "Cc" || name == "Bcc" then SanitizedOption(FieldOf(p, name)) else None
  {
    hide OptionalHeader, Lookup, Joined, SanitizedOption;
    var h1 := OptionalHeader("From", Joined(p.from));
    var h2 := h1 + OptionalHeader("To", Joined(p.to));
    var h3 := h2 + OptionalHeader("Cc", Joined(p.cc));
    LookupConcat(h1, OptionalHeader("To", Joined(p.to)), name);
    LookupConcat(h2, OptionalHeader("Cc", Joined(p.cc)), name);
    LookupConcat(h3, OptionalHeader("Bcc", Joined(p.bcc)), name);
    LookupOptional("From", Joined(p.from), name);
    LookupOptional("To", Joined(p.to), name);
    LookupOptional("Cc", Joined(p.cc), name);
    LookupOptional("Bcc", Joined(p.bcc), name);
    NoneStaysNone(FieldOf(p, name));
  }

  lemma LookupField(header: string, value: string, name: string)
    requires ':' !in header && header != name
    ensures Lookup([Field(header, value)], name) == None
  {
    FieldReadsBack(header, value);
    hide ReadField, Field;
    assert [Field(header, value)][1..] == [];
  }

  lemma LookupFixed(name: string)
    requires !IsFixedName(name)
    ensures Lookup(FIXED_HEADERS, name) == None
  {
    hide Lookup, Field;
    var version: seq<string> := [Field("MIME-Version", "1.0")];
    var kind: seq<string> := [Field("Content-Type", "text/plain; charset=utf-8")];
    var encoding: seq<string> := [Field("Content-Transfer-Encoding", "8bit")];
    LookupField("MIME-Version", "1.0", name);
    LookupField("Content-Type", "text/plain; charset=utf-8", name);
    LookupField("Content-Transfer-Encoding", "8bit", name);
    LookupConcat(version, kind, name);
    LookupConcat(version + kind, encoding, name);
    assert FIXED_HEADERS == version + kind + encoding;
  }

  /** Reading a rendered message and looking a field up gives the sanitized value the
      payload has under that name, and none when it has none. */
  lemma FieldsReadBack(p: Payload, name: string)
    requires !IsFixedName(name)
    ensures ReadEml(RenderEml(p)).Some?
    ensures Lookup(ReadEml(RenderEml(p)).value.0, name) == SanitizedOption(FieldOf(p, name))
  {
    EmlReadsBack(p);
    hide OptionalHeader, Lookup, Joined, SanitizedOption, ReadEml, RenderEml, SanitizeHeader;
    LookupAddresses(p, name);
    var h0 := AddressHeaders(p);
    var h1 := h0 + OptionalHeader("Subject", p.subject);
    var h2 := h1 + OptionalHeader("Date", p.utcDate);
    var h3 := h2 + OptionalHeader("Message-ID", p.rfcMessageId);
    var h4 := h3 + OptionalHeader("In-Reply-To", p.inReplyTo);
    LookupConcat(h0, OptionalHeader("Subject", p.subject), name);
    LookupConcat(h1, OptionalHeader("Date", p.utcDate), name);
    LookupConcat(h2, OptionalHeader("Message-ID", p.rfcMessageId), name);
    LookupConcat(h3, OptionalHeader("In-Reply-To", p.inReplyTo), name);
    LookupConcat(h4, FIXED_HEADERS, name);
    LookupOptional("Subject", p.subject, name);
    LookupOptional("Date", p.utcDate, name);
    LookupOptional("Message-ID", p.rfcMessageId, name);
    LookupOptional("In-Reply-To", p.inReplyTo, name);
    LookupFixed(name);
    NoneStaysNone(FieldOf(p, name));
  }

  /** What is left of addresses when the joined text is cut at its commas. */
  function Spaced(first: string, rest: seq<string>): seq<string>
  {
    [first] + seq(|rest|, i requires 0 <= i < |rest| => " " + rest[i])
  }

  lemma SpacedCons(first: string, rest: seq<string>)
    requires rest != []
    ensures Spaced(first, rest) == [first] + Spaced(" " + rest[0], rest[1..])
  {}

  lemma JoinedFrom(before: string, parts: seq<string>)
    requires |parts| > 1
    ensures before + JoinWith(parts, ", ") == (before + parts[0]) + [','] + (" " + JoinWith(parts[1..], ", "))
  {
    var rest := JoinWith(parts[1..], ", ");
    assert JoinWith(parts, ", ") == parts[0] + ", " + rest;
    assert ", " == [','] + " ";
    hide JoinWith;
  }

  lemma SplitAlone(s: string)
    requires ',' !in s
    ensures Split(s, ',') == [s]
  {
    assert IndexOf(s, ',') < 0;
  }

  lemma {:induction false} JoinedSplits(before: string, parts: seq<string>)
    requires parts != [] && ',' !in before && forall x :: x in parts ==> ',' !in x
    ensures Split(before + JoinWith(parts, ", "), ',') == Spaced(before + parts[0], parts[1..])
    decreases |parts|
  {
    var first, rest := before + parts[0], parts[1..];
    assert parts[0] in parts;
    if rest == [] {
      assert first == before + JoinWith(parts, ", ");
      SplitAlone(first);
      assert Spaced(first, rest) == [first];
    } else {
      assert ',' !in " " && forall x :: x in rest ==> x in parts;
      JoinedFrom(before, parts);
      hide JoinWith, Split, Spaced;
      JoinedSplits(" ", rest);
      SplitCons(first, " " + JoinWith(rest, ", "), ',');
      SpacedCons(first, rest);
    }
  }

  lemma NoBreaksConcat(a: string, b: string)
    requires NoBreaks(a) && NoBreaks(b)
    ensures NoBreaks(a + b)
  {}

  lemma {:induction false} JoinedHasNoBreaks(parts: seq<string>)
    requires forall x :: x in parts ==> NoBreaks(x)
    ensures NoBreaks(JoinWith(parts, ", "))
    decreases |parts|
  {
    if |parts| == 1 {
      assert parts[0] in parts;
    } else if |parts| > 1 {
      assert parts[0] in parts && forall x :: x in parts[1..] ==> x in parts;
      JoinedHasNoBreaks(parts[1..]);
      NoBreaksConcat(parts[0], ", ");
      NoBreaksConcat(parts[0] + ", ", JoinWith(parts[1..], ", "));
    }
  }

  function AddressesOf(p: Payload, name: string): Option<seq<string>>
  {
    if name == "From" then p.from else if name == "To" then p.to else if name == "Cc" then p.cc else p.bcc
  }

  lemma AddressesSplit(addresses: seq<string>)
    requires addresses != [] && forall x :: x in SanitizeAll(addresses) ==> ',' !in x
    ensures var joined := JoinWith(SanitizeAll(addresses), ", ");
            && SanitizeHeader(joined) == joined
            && Split(joined, ',') == Spaced(SanitizeHeader(addresses[0]), SanitizeAll(addresses[1..]))
  {
    var sanitized := SanitizeAll(addresses);
    assert sanitized[0] == SanitizeHeader(addresses[0]) && sanitized[1..] == SanitizeAll(addresses[1..]);
    hide Split, SanitizeHeader, JoinWith, Spaced, NoBreaks;
    JoinedHasNoBreaks(sanitized);
    JoinedSplits("", sanitized);
    assert "" + JoinWith(sanitized, ", ") == JoinWith(sanitized, ", ") && "" + sanitized[0] == sanitized[0];
  }

  lemma AddressFields(p: Payload, name: string)
    requires name == "From" || name == "To" || name == "Cc" || name == "Bcc"
    ensures FieldOf(p, name) == Joined(AddressesOf(p, name))
  {
    hide Joined;
  }

  /** An address header is there exactly when the payload has those addresses; cut at its
      commas it gives back every address, sanitized, when none of them has a comma. */
  lemma AddressesReadBack(p: Payload, name: string)
    requires name == "From" || name == "To" || name == "Cc" || name == "Bcc"
    ensures ReadEml(RenderEml(p)).Some?
    ensures var field, addresses := Lookup(ReadEml(RenderEml(p)).value.0, name), AddressesOf(p, name);
            && (field.Some? <==> addresses.Some?)
            && (addresses.Some? && addresses.value != [] && (forall x :: x in SanitizeAll(addresses.value) ==> ',' !in x) ==>
                  Split(field.value, ',') == Spaced(SanitizeHeader(addresses.value[0]), SanitizeAll(addresses.value[1..])))
  {
    AddressFields(p, name);
    hide ReadEml, RenderEml, Lookup, Split, SanitizeHeader, FieldOf, AddressesOf, Spaced, JoinWith, SanitizeAll;
    FieldsReadBack(p, name);
    var addresses := AddressesOf(p, name);
    if addresses.Some? && addresses.value != [] && forall x :: x in SanitizeAll(addresses.value) ==> ',' !in x {
      AddressesSplit(addresses.value);
    }
  }

  lemma {:induction false} SkipBreaksPast(run: string, rest: string)
    requires (forall i :: 0 <= i < |run| ==> IsBreak(run[i])) && (rest != "" ==> !IsBreak(rest[0]))
    ensures SkipBreaks(run + rest) == rest
    decreases |run|
  {
    if run == "" {
      assert run + rest == rest;
    } else {
      assert run + rest == [run[0]] + (run[1..] + rest) && (run + rest)[1..] == run[1..] + rest;
      SkipBreaksPast(run[1..], rest);
    }
  }

  lemma SanitizeCons(c: char, rest: string)
    ensures SanitizeHeader([c] + rest) == if IsBreak(c) then " " + SanitizeHeader(SkipBreaks(rest)) else [c] + SanitizeHeader(rest)
  {
    assert ([c] + rest)[1..] == rest;
  }

  /** Sanitizing replaces every run of breaks by one space and keeps everything else. */
  lemma {:induction false} SanitizedRun(before: string, run: string, rest: string)
    requires NoBreaks(before) && run != "" && (forall i :: 0 <= i < |run| ==> IsBreak(run[i]))
    requires rest != "" ==> !IsBreak(rest[0])
    ensures SanitizeHeader(before + run + rest) == before + " " + SanitizeHeader(rest)
    decreases |before|
  {
    var s := before + run + rest;
    hide SanitizeHeader, SkipBreaks;
    if before == "" {
      assert s == [run[0]] + (run[1..] + rest) && before + " " + SanitizeHeader(rest) == " " + SanitizeHeader(rest);
      SkipBreaksPast(run[1..], rest);
      SanitizeCons(run[0], run[1..] + rest);
    } else {
      assert s == [before[0]] + (before[1..] + run + rest);
      SanitizeCons(before[0], before[1..] + run + rest);
      SanitizedRun(before[1..], run, rest);
    }
  }

  // ---- Reply subjects -----------------------------------------------------------------------

  /** What `\s` and `trim` take for white space. */
  predicate IsSpace(ch: char)
  {
    var c := ch as int;
    || 0x09 <= c <= 0x0D || c == 0x20 || c == 0xA0 || c == 0x1680 || 0x2000 <= c <= 0x200A
    || c == 0x2028 || c == 0x2029 || c == 0x202F || c == 0x205F || c == 0x3000 || c == 0xFEFF
  }

  function SkipSpaces(s: string): (n: nat)
    ensures n <= |s|
    ensures forall i :: 0 <= i < n ==> IsSpace(s[i])
    ensures n < |s| ==> !IsSpace(s[n])
  {
    if s != "" && IsSpace(s[0]) then 1 + SkipSpaces(s[1..]) else 0
  }

  /** The length of one `\s*re\s*:\s*` at the start, case aside; 0 when there is none. */
  function ReplyPrefix(s: string): (n: nat)
    ensures n <= |s|
  {
    var a := SkipSpaces(s);
    if a + 2 > |s| || (s[a] != 'r' && s[a] != 'R') || (s[a + 1] != 'e' && s[a + 1] != 'E') then 0
    else
      var b := a + 2 + SkipSpaces(s[a + 2..]);
      if b >= |s| || s[b] != ':' then 0 else b + 1 + SkipSpaces(s[b + 1..])
  }

  /** `subject.replace(/^(?:\s*re\s*:\s*)+/i, '')` */
  function StripReplies(s: string): (r: string)
    ensures ReplyPrefix(r) == 0
    decreases |s|
  {
    var n := ReplyPrefix(s);
    if n == 0 then s else StripReplies(s[n..])
  }

  function TrimRight(s: string): (r: string)
    ensures r <= s
    ensures forall i :: |r| <= i < |s| ==> IsSpace(s[i])
    ensures r != "" ==> !IsSpace(r[|r| - 1])
  {
    if s != "" && IsSpace(s[|s| - 1]) then TrimRight(s[..|s| - 1]) else s
  }

  function Trim(s: string): string
  {
    TrimRight(s[SkipSpaces(s)..])
  }

  function DeriveReplySubject(subject: Option<string>): string
  {
    var base := Trim(StripReplies(if subject.None? then "" else subject.value));
    if base == "" then "Re:" else "Re: " + base
  }

  lemma TailsAgree(s: string, a: nat, t: string)
    requires 2 <= |t| && a + |t| <= |s| && s[a..a + |t|] == t
    ensures t[2..] <= s[a + 2..]
    ensures forall i :: 0 <= i < |t| ==> s[a + i] == t[i]
  {
    assert s[a + 2..][..|t| - 2] == s[a..a + |t|][2..];
  }

  lemma {:induction false} SkipIsFirst(s: string, n: nat)
    requires n < |s| && !IsSpace(s[n]) && forall i :: 0 <= i < n ==> IsSpace(s[i])
    ensures SkipSpaces(s) == n
  {}

  lemma {:induction false} SkipAgrees(s: string, t: string)
    requires t <= s && SkipSpaces(t) < |t|
    ensures SkipSpaces(s) == SkipSpaces(t)
    decreases |t|
  {
    if t != [] && IsSpace(t[0]) {
      SkipAgrees(s[1..], t[1..]);
    }
  }

  lemma PrefixInside(s: string, a: nat, t: string)
    requires a == SkipSpaces(s) && a + |t| <= |s| && s[a..a + |t|] == t
    requires t != "" ==> !IsSpace(t[0])
    ensures ReplyPrefix(t) > 0 ==> ReplyPrefix(s) > 0
  {
    if ReplyPrefix(t) > 0 {
      SkipIsFirst(t, 0);
      TailsAgree(s, a, t);
      SkipAgrees(s[a + 2..], t[2..]);
      var b := SkipSpaces(t[2..]);
      assert t[2 + b] == ':' && s[a + 2..][b] == ':';
    }
  }

  /** Trimming does not uncover a reply prefix. */
  lemma TrimKeepsNoPrefix(s: string)
    ensures ReplyPrefix(Trim(s)) > 0 ==> ReplyPrefix(s) > 0
  {
    PrefixInside(s, SkipSpaces(s), Trim(s));
  }

  lemma PrefixOfReply(r: string, base: string)
    requires (r == "Re:" && base == "") || (r == "Re: " + base && base != "" && !IsSpace(base[0]))
    ensures ReplyPrefix(r) == |r| - |base|
  {
    SkipIsFirst(r, 0);
    SkipIsFirst(r[2..], 0);
    if base != "" {
      SkipIsFirst(r[3..], 1);
    } else {
      assert r[3..] == "";
    }
  }

  lemma SpaceBeforePrefix(base: string)
    requires base != "" && !IsSpace(base[0]) && ReplyPrefix(base) == 0
    ensures ReplyPrefix(" " + base) == 0
  {
    var s := " " + base;
    SkipIsFirst(s, 1);
    SkipIsFirst(base, 0);
    if |s| >= 3 {
      assert s[3..] == base[2..];
    }
  }

  lemma ReplyToBase(base: string)
    requires base != "" ==> !IsSpace(base[0]) && !IsSpace(base[|base| - 1])
    requires ReplyPrefix(base) == 0
    ensures var r := if base == "" then "Re:" else "Re: " + base;
            && DeriveReplySubject(Some(r)) == r
            && |r| >= 3 && r[..3] == "Re:" && ReplyPrefix(r[3..]) == 0
  {
    hide ReplyPrefix, SkipSpaces, IsSpace, TrimRight;
    var r := if base == "" then "Re:" else "Re: " + base;
    PrefixOfReply(r, base);
    assert r[|r| - |base|..] == base;
    assert StripReplies(base) == base;
    if base == "" {
      assert r[3..] == base;
    } else {
      assert r[3..] == " " + base;
      SpaceBeforePrefix(base);
    }
  }

  predicate AllSpaces(s: string)
  {
    forall i :: 0 <= i < |s| ==> IsSpace(s[i])
  }

  /** Spaces, `re` in any case, spaces, a colon and all spaces after it, up to n. */
  predicate SpellsPrefix(s: string, a: nat, b: nat, n: nat)
  {
    && a + 2 <= b < n <= |s|
    && AllSpaces(s[..a]) && (s[a] == 'r' || s[a] == 'R') && (s[a + 1] == 'e' || s[a + 1] == 'E')
    && AllSpaces(s[a + 2..b]) && s[b] == ':' && AllSpaces(s[b + 1..n]) && (n < |s| ==> !IsSpace(s[n]))
  }

  lemma SpacesSkipped(s: string, from: nat, n: nat)
    requires from <= n <= |s| && AllSpaces(s[from..n]) && (n < |s| ==> !IsSpace(s[n]))
    ensures SkipSpaces(s[from..]) == n - from
  {
    var t := s[from..];
    assert forall i :: 0 <= i < n - from ==> t[i] == s[from..n][i];
    if n < |s| {
      SkipIsFirst(t, n - from);
    }
  }

  lemma SpacesOf(s: string, from: nat)
    requires from <= |s|
    ensures var n := from + SkipSpaces(s[from..]);
            n <= |s| && AllSpaces(s[from..n]) && (n < |s| ==> !IsSpace(s[n]))
  {
    hide IsSpace;
    var n := from + SkipSpaces(s[from..]);
    assert forall i :: 0 <= i < n - from ==> s[from..n][i] == s[from..][i];
  }

  lemma PrefixIsSpelt(s: string)
    requires ReplyPrefix(s) > 0
    ensures exists a: nat, b: nat :: SpellsPrefix(s, a, b, ReplyPrefix(s))
  {
    hide IsSpace, SkipSpaces, AllSpaces;
    assert s[0..] == s;
    SpacesOf(s, 0);
    var a := SkipSpaces(s);
    assert s[0..a] == s[..a];
    SpacesOf(s, a + 2);
    var b := a + 2 + SkipSpaces(s[a + 2..]);
    SpacesOf(s, b + 1);
    assert SpellsPrefix(s, a, b, ReplyPrefix(s));
  }

  lemma PrefixOfSkips(s: string, a: nat, b: nat, n: nat)
    requires a + 2 <= b < n <= |s| && SkipSpaces(s) == a && SkipSpaces(s[a + 2..]) == b - a - 2
    requires (s[a] == 'r' || s[a] == 'R') && (s[a + 1] == 'e' || s[a + 1] == 'E')
    requires s[b] == ':' && SkipSpaces(s[b + 1..]) == n - b - 1
    ensures ReplyPrefix(s) == n
  {
    hide SkipSpaces;
  }

  lemma SpeltIsPrefix(s: string, a: nat, b: nat, n: nat)
    requires SpellsPrefix(s, a, b, n)
    ensures ReplyPrefix(s) == n
  {
    assert SkipSpaces(s) == a by {
      assert s[0..] == s && s[0..a] == s[..a] && !IsSpace(s[a]);
      SpacesSkipped(s, 0, a);
    }
    assert SkipSpaces(s[a + 2..]) == b - a - 2 by {
      assert !IsSpace(s[b]);
      SpacesSkipped(s, a + 2, b);
    }
    hide IsSpace, SkipSpaces, ReplyPrefix, AllSpaces;
    SpacesSkipped(s, b + 1, n);
    PrefixOfSkips(s, a, b, n);
  }

  /** A reply prefix is recognised exactly where one is spelt. */
  lemma ReplyPrefixExactly(s: string, n: nat)
    requires n > 0
    ensures ReplyPrefix(s) == n <==> exists a: nat, b: nat :: SpellsPrefix(s, a, b, n)
  {
    hide ReplyPrefix, SpellsPrefix;
    if ReplyPrefix(s) == n {
      PrefixIsSpelt(s);
    }
    if a: nat, b: nat :| SpellsPrefix(s, a, b, n) {
      SpeltIsPrefix(s, a, b, n);
    }
  }

  /** A subject without a reply prefix is kept, trimmed, after "Re: "; one with a prefix
      gives what it gives without. */
  lemma ReplySubjectExactly(s: string)
    ensures ReplyPrefix(s) == 0 && Trim(s) != "" ==> DeriveReplySubject(Some(s)) == "Re: " + Trim(s)
    ensures ReplyPrefix(s) == 0 && Trim(s) == "" ==> DeriveReplySubject(Some(s)) == "Re:"
    ensures DeriveReplySubject(Some(s)) == DeriveReplySubject(Some(s[ReplyPrefix(s)..]))
    ensures DeriveReplySubject(None) == "Re:"
  {
    hide ReplyPrefix;
    assert ReplyPrefix(s) == 0 ==> s[ReplyPrefix(s)..] == s;
    assert StripReplies("") == "";
  }

  /** Deriving a reply subject twice is deriving it once, and what follows its "Re:"
      carries no further reply prefix. */
  lemma ReplySubjectIsIdempotent(subject: Option<string>)
    ensures DeriveReplySubject(Some(DeriveReplySubject(subject))) == DeriveReplySubject(subject)
    ensures var r := DeriveReplySubject(subject); |r| >= 3 && r[..3] == "Re:" && ReplyPrefix(r[3..]) == 0
  {
    var s := StripReplies(if subject.None? then "" else subject.value);
    TrimKeepsNoPrefix(s);
    ReplyToBase(Trim(s));
  }

  // ---- Reply references ------------------------------------------------------------------------

  /** `[...new Set(xs)]`: each element at its first occurrence. */
  function Distinct(xs: seq<string>): seq<string>
  {
    if xs == [] then []
    else
      var front := Distinct(xs[..|xs| - 1]);
      if xs[|xs| - 1] in front then front else front + [xs[|xs| - 1]]
  }

  function DeriveReplyReferences(references: Option<seq<string>>, rfcMessageId: string): seq<string>
  {
    Distinct((if references.None? then [] else references.value) + [rfcMessageId])
  }

  predicate NoDuplicates(xs: seq<string>)
  {
    forall i, j :: 0 <= i < j < |xs| ==> xs[i] != xs[j]
  }

  /** The position of the first occurrence. */
  function FirstIndex(xs: seq<string>, x: string): (i: nat)
    requires x in xs
    ensures i < |xs| && xs[i] == x && x !in xs[..i]
  {
    if xs[0] == x then 0
    else
      assert xs == [xs[0]] + xs[1..];
      var i := FirstIndex(xs[1..], x);
      assert xs[..i + 1] == [xs[0]] + xs[1..][..i];
      i + 1
  }

  lemma FirstIndexPrefix(xs: seq<string>, y: string, x: string)
    requires x in xs
    ensures FirstIndex(xs + [y], x) == FirstIndex(xs, x)
  {
    var i, j := FirstIndex(xs, x), FirstIndex(xs + [y], x);
    TakeHas(xs, i);
    TakeHas(xs + [y], j);
    assert (xs + [y])[i] == x && (j < |xs| ==> xs[j] == x);
  }

  /** The list of distinct elements has the same elements, none twice, in the order of
      their first occurrences. */
  lemma {:induction false} DistinctExactly(xs: seq<string>)
    ensures var r := Distinct(xs);
            && NoDuplicates(r) && (forall x :: x in r <==> x in xs)
            && forall i, j :: 0 <= i < j < |r| ==> FirstIndex(xs, r[i]) < FirstIndex(xs, r[j])
    decreases |xs|
  {
    if xs != [] {
      var n := |xs| - 1;
      var front, r := Distinct(xs[..n]), Distinct(xs);
      DistinctExactly(xs[..n]);
      assert xs == xs[..n] + [xs[n]];
      forall x | x in xs[..n] ensures FirstIndex(xs, x) == FirstIndex(xs[..n], x) {
        FirstIndexPrefix(xs[..n], xs[n], x);
      }
      forall i, j | 0 <= i < j < |r| ensures FirstIndex(xs, r[i]) < FirstIndex(xs, r[j]) {
        assert r[i] in front;
        if j < |front| {
          assert r[j] in front;
        }
      }
    }
  }

  lemma {:induction false} DistinctFixes(xs: seq<string>)
    requires NoDuplicates(xs)
    ensures Distinct(xs) == xs
    decreases |xs|
  {
    if xs != [] {
      DistinctFixes(xs[..|xs| - 1]);
      assert xs == xs[..|xs| - 1] + [xs[|xs| - 1]];
    }
  }

  /** Replying again to the same message adds nothing. */
  lemma DistinctSnoc(xs: seq<string>, x: string)
    ensures Distinct(xs + [x]) == Distinct(xs) + if x in Distinct(xs) then [] else [x]
  {
    assert (xs + [x])[..|xs|] == xs;
  }

  lemma ReplyReferencesAreIdempotent(references: Option<seq<string>>, id: string)
    ensures var r := DeriveReplyReferences(references, id);
            NoDuplicates(r) && id in r && DeriveReplyReferences(Some(r), id) == r
  {
    var xs := (if references.None? then [] else references.value) + [id];
    DistinctExactly(xs);
    var r := Distinct(xs);
    assert xs[|xs| - 1] == id;
    DistinctFixes(r);
    DistinctSnoc(r, id);
    hide Distinct, FirstIndex, NoDuplicates;
  }
}
