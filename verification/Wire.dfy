/** The protocol between relay and validator: length-prefixed messages over a stream
    that arrives in arbitrary pieces, and commands whose fields are told apart by
    separators. */
module Wire {
  import opened Options

  // ---------------------------------------------------------------------
  // Numbers as text
  // ---------------------------------------------------------------------

  predicate IsDigit(c: char) { '0' <= c <= '9' }

  function Digit(n: nat): char
    requires n < 10
  {
    '0' + n as char
  }

  /** `std::to_string` */
  function ToText(n: nat): (s: string)
    ensures |s| > 0 && forall i :: 0 <= i < |s| ==> IsDigit(s[i])
  {
    if n < 10 then [Digit(n)] else ToText(n / 10) + [Digit(n % 10)]
  }

  function DigitValue(c: char): nat
    requires IsDigit(c)
  {
    c as int - '0' as int
  }

  /** `std::atoi` on digits that fit. */
  function Atoi(s: string): nat
    requires forall i :: 0 <= i < |s| ==> IsDigit(s[i])
  {
    if s == "" then 0 else 10 * Atoi(s[..|s| - 1]) + DigitValue(s[|s| - 1])
  }

  lemma {:induction false} AtoiToText(n: nat)
    ensures Atoi(ToText(n)) == n
  {
    var s := ToText(n);
    if n >= 10 {
      AtoiToText(n / 10);
      assert s[..|s| - 1] == ToText(n / 10);
    } else {
      assert s[..0] == "";
    }
  }

  /** The digits are those of the decimal system, the last one counting the ones, the
      one before it the tens, and so on. */
  lemma {:induction false} Decimal(n: nat, i: nat)
    requires i < |ToText(n)|
    ensures ToText(n)[|ToText(n)| - 1 - i] == "0123456789"[(n / Pow10(i)) % 10]
    decreases n
  {
    DigitChar(n % 10);
    assert Pow10(0) == 1;
    if i > 0 {
      Decimal(n / 10, i - 1);
      TenTimes(n, Pow10(i - 1));
    }
  }

  lemma DigitChar(d: nat)
    requires d < 10
    ensures Digit(d) == "0123456789"[d]
  {
  }

  lemma DecimalDigit(c: char)
    ensures IsDigit(c) <==> c in "0123456789"
  {
    if IsDigit(c) { DigitChar(c as nat - 48); }
  }

  lemma TenTimes(n: nat, p: nat)
    requires p > 0
    ensures n / (10 * p) == n / 10 / p
  {
    var q, r := n / 10 / p, (n / 10) % p;
    assert n / 10 == q * p + r;
    assert q * (10 * p) == 10 * (q * p);
    Quotient(n, 10 * p, q, 10 * r + n % 10);
  }

  lemma Quotient(n: nat, m: nat, q: nat, r: nat)
    requires m > 0 && n == q * m + r && r < m
    ensures n / m == q
  {
    var d := n / m - q;
    assert d * m == (n / m) * m - q * m;
    Multiple(d, m);
  }

  lemma Multiple(d: int, m: int)
    requires m > 0
    ensures d > 0 ==> d * m >= m
    ensures d < 0 ==> d * m <= 0 - m
  {
    Product(d - 1, m);
    Product(-1 - d, m);
  }

  lemma Product(d: int, m: int)
    requires m > 0
    ensures d >= 0 ==> d * m >= 0
  {
  }

  function Pow10(n: nat): (p: nat)
    ensures p > 0
  {
    if n == 0 then 1 else 10 * Pow10(n - 1)
  }

  /** A number has at most `d` digits exactly if it is below the d-th power of ten. */
  lemma {:induction false} DigitCount(n: nat, d: nat)
    requires d > 0
    ensures |ToText(n)| <= d <==> n < Pow10(d)
    decreases n
  {
    if n >= 10 {
      if d == 1 {
        assert Pow10(1) == 10 * Pow10(0);
      } else {
        DigitCount(n / 10, d - 1);
      }
    } else {
      assert Pow10(d) == 10 * Pow10(d - 1);
    }
  }

  // ---------------------------------------------------------------------
  // The stream
  // ---------------------------------------------------------------------

  /** A connection: the bytes that will still arrive before it is closed, and how many
      of them each read delivers. */
  class Socket {
    var data: string
    var pieces: seq<nat>

    constructor (data: string, pieces: seq<nat>)
      ensures this.data == data && this.pieces == pieces
    {
      this.data, this.pieces := data, pieces;
    }

    /** `read`: at least one byte unless the stream is at its end, at most `n`. */
    method Read(n: nat) returns (got: string)
      requires n > 0
      modifies this
      ensures |got| <= n && old(data) == got + data && (got == "" ==> old(data) == "")
    {
      var most := if pieces == [] then n else pieces[0];
      if pieces != [] { pieces := pieces[1..]; }
      var k := if most == 0 then 1 else if most > n then n else most;
      if k > |data| { k := |data|; }
      got := data[..k];
      data := data[k..];
    }
  }

  /** `read_until_length`: fails if the stream ends early. */
  method ReadUntilLength(s: Socket, length: nat) returns (r: Option<string>)
    modifies s
    ensures r == if length <= |old(s.data)| then Some(old(s.data)[..length]) else None
    ensures r.Some? ==> s.data == old(s.data)[length..]
  {
    var buffer := "";
    while |buffer| < length
      invariant |buffer| <= length && old(s.data) == buffer + s.data
      decreases length - |buffer|
    {
      var got := s.Read(length - |buffer|);
      if got == "" {
        return None;
      }
      buffer := buffer + got;
    }
    r := Some(buffer);
  }

  /** What becomes of a stream: a message and what follows it, a malformed or too long
      length, or a connection closed within the message. */
  datatype Outcome = Message(text: string, rest: string) | Malformed | Closed

  /** The outcome for a stream after some digits of the length have been read; a stream
      that ends before the blank counts as an empty message. */
  function Parse(digits: string, data: string, max: nat): Outcome
    requires forall i :: 0 <= i < |digits| ==> IsDigit(digits[i])
    decreases |data|
  {
    if data == "" then Message("", "")
    else if data[0] == ' ' then
      var n := Atoi(digits);
      if n <= |data| - 1 then Message(data[1..n + 1], data[n + 1..]) else Closed
    else if !IsDigit(data[0]) then Malformed
    else if |digits| + 1 > max then Malformed
    else Parse(digits + [data[0]], data[1..], max)
  }

  /** One byte of the stream. */
  lemma ParseByte(digits: string, got: string, data: string, max: nat)
    requires |got| == 1 && forall i :: 0 <= i < |digits| ==> IsDigit(digits[i])
    ensures Parse(digits, got + data, max) ==
      if got[0] == ' ' then
        (if Atoi(digits) <= |data| then Message(data[..Atoi(digits)], data[Atoi(digits)..]) else Closed)
      else if !IsDigit(got[0]) || |digits| + 1 > max then Malformed
      else
        assert forall i :: 0 <= i < |digits + got| ==> IsDigit((digits + got)[i]);
        Parse(digits + got, data, max)
  {
    var all := got + data;
    assert got == [all[0]] && all[1..] == data;
    if got[0] == ' ' && Atoi(digits) <= |data| {
      assert all[1..Atoi(digits) + 1] == data[..Atoi(digits)];
    }
  }

  /** The common loop of both readers; the length may have `max` digits. */
  method ReadFramed(s: Socket, max: nat) returns (r: Outcome)
    modifies s
    ensures r == Parse("", old(s.data), max)
    ensures r.Message? ==> s.data == r.rest
  {
    var digits := "";
    var got := s.Read(1);
    while got != ""
      invariant |got| <= 1 && forall i :: 0 <= i < |digits| ==> IsDigit(digits[i])
      invariant Parse("", old(s.data), max) == Parse(digits, got + s.data, max)
      invariant got == "" ==> s.data == ""
      decreases |got| + |s.data|
    {
      ParseByte(digits, got, s.data, max);
      if got[0] == ' ' {
        var text := ReadUntilLength(s, Atoi(digits));
        return match text case None => Closed case Some(t) => Message(t, s.data);
      } else if !IsDigit(got[0]) {
        return Malformed;
      } else {
        digits := digits + got;
        if |digits| > max {
          return Malformed;
        }
        got := s.Read(1);
      }
    }
    r := Message("", "");
  }

  /** `read_relay_message`: gives up when the eighth digit arrives. */
  method ReadRelayMessage(s: Socket) returns (r: Outcome)
    modifies s
    ensures r == Parse("", old(s.data), 7) && (r.Message? ==> s.data == r.rest)
  {
    r := ReadFramed(s, 7);
  }

  /** `read_validator_message`: gives up at the ninth digit. */
  method ReadValidatorMessage(s: Socket) returns (r: Outcome)
    modifies s
    ensures r == Parse("", old(s.data), 8) && (r.Message? ==> s.data == r.rest)
  {
    r := ReadFramed(s, 8);
  }

  /** A message as it is sent: its length, a blank, the text. */
  function Frame(text: string): string { ToText(|text|) + " " + text }

  /** However the stream is cut into reads, a framed message is recovered exactly if
      its length has no more digits than the reader takes; otherwise it is rejected. */
  lemma FrameRoundTrip(text: string, rest: string, max: nat)
    requires max > 0
    ensures Parse("", Frame(text) + rest, max) == if |text| < Pow10(max) then Message(text, rest) else Malformed
  {
    var n := ToText(|text|);
    assert Frame(text) + rest == n + (" " + text + rest);
    ParseDigits("", n, " " + text + rest, max);
    DigitCount(|text|, max);
    if |n| <= max {
      AtoiToText(|text|);
      assert "" + n == n;
      var data := " " + text + rest;
      assert data[1..|text| + 1] == text && data[|text| + 1..] == rest;
    }
  }

  lemma {:induction false} ParseDigits(digits: string, more: string, data: string, max: nat)
    requires forall i :: 0 <= i < |digits| ==> IsDigit(digits[i])
    requires forall i :: 0 <= i < |more| ==> IsDigit(more[i])
    ensures forall i :: 0 <= i < |digits + more| ==> IsDigit((digits + more)[i])
    ensures Parse(digits, more + data, max) ==
            if more == "" || |digits| + |more| <= max then Parse(digits + more, data, max) else Malformed
    decreases |more|
  {
    if more == "" {
      assert more + data == data && digits + more == digits;
    } else {
      var all := more + data;
      assert all[0] == more[0] && all[1..] == more[1..] + data;
      if |digits| + 1 <= max {
        ParseDigits(digits + [more[0]], more[1..], data, max);
        assert digits + [more[0]] + more[1..] == digits + more;
      }
    }
  }

  // ---------------------------------------------------------------------
  // Commands
  // ---------------------------------------------------------------------

  predicate OccursAt(s: string, sep: string, i: int) {
    0 <= i <= |s| - |sep| && s[i..i + |sep|] == sep
  }

  /** `std::string::find` from a position on. */
  method Find(s: string, sep: string, from: nat) returns (r: Option<nat>)
    ensures r == FirstFrom(s, sep, from)
  {
    var i := from;
    while i + |sep| <= |s|
      invariant FirstFrom(s, sep, from) == FirstFrom(s, sep, i)
    {
      if s[i..i + |sep|] == sep {
        return Some(i);
      }
      i := i + 1;
    }
    r := None;
  }

  function FirstFrom(s: string, sep: string, i: nat): Option<nat>
    decreases |s| + 1 - i
  {
    if i + |sep| > |s| then None
    else if s[i..i + |sep|] == sep then Some(i)
    else FirstFrom(s, sep, i + 1)
  }

  lemma {:induction false} FirstFromIs(s: string, sep: string, i: nat)
    ensures FirstFrom(s, sep, i).Some? ==>
              && i <= FirstFrom(s, sep, i).value && OccursAt(s, sep, FirstFrom(s, sep, i).value)
              && forall j :: i <= j < FirstFrom(s, sep, i).value ==> !OccursAt(s, sep, j)
    ensures FirstFrom(s, sep, i).None? ==> forall j :: i <= j ==> !OccursAt(s, sep, j)
    decreases |s| + 1 - i
  {
    if i + |sep| <= |s| && s[i..i + |sep|] != sep { FirstFromIs(s, sep, i + 1); }
  }

  /** The text before and after the first occurrence of a separator. */
  function Cut(s: string, sep: string): Option<(string, string)> {
    var at := FirstFrom(s, sep, 0);
    if at.None? then None
    else
      FirstFromIs(s, sep, 0);
      Some((s[..at.value], s[at.value + |sep|..]))
  }

  /** The parts of a text between successive first occurrences of separators. */
  function Fields(s: string, seps: seq<string>): Option<seq<string>>
    decreases |seps|
  {
    if seps == [] then Some([s])
    else
      var c := Cut(s, seps[0]);
      if c.None? then None else Prepend(c.value.0, Fields(c.value.1, seps[1..]))
  }

  function Prepend(f: string, more: Option<seq<string>>): Option<seq<string>> {
    if more.None? then None else Some([f] + more.value)
  }

  lemma PrependIs(f: string, more: Option<seq<string>>, fs: seq<string>)
    requires fs != []
    ensures Prepend(f, more) == Some(fs) <==> f == fs[0] && more == Some(fs[1..])
    ensures Tail(Prepend(f, more)) == more
  {
    if more.Some? { assert ([f] + more.value)[1..] == more.value && ([f] + more.value)[0] == f; }
    assert fs == [fs[0]] + fs[1..];
  }

  function Joined(fs: seq<string>, seps: seq<string>): string
    requires |fs| == |seps| + 1
    decreases |seps|
  {
    if seps == [] then fs[0] else fs[0] + seps[0] + Joined(fs[1..], seps[1..])
  }

  /** The separator occurs in the field followed by it only at the end: neither within
      the field nor across the border. */
  ghost predicate Clean(f: string, sep: string) {
    forall i :: 0 <= i < |f| ==> !OccursAt(f + sep, sep, i)
  }

  lemma CleanIff(f: string, sep: string, rest: string)
    ensures FirstFrom(f + sep + rest, sep, 0) == Some(|f|) <==> Clean(f, sep)
  {
    var s := f + sep + rest;
    FirstFromIs(s, sep, 0);
    assert s[|f|..|f| + |sep|] == sep;
    assert OccursAt(s, sep, |f|);
    forall i | 0 <= i < |f|
      ensures OccursAt(s, sep, i) <==> OccursAt(f + sep, sep, i)
    {
      assert s[i..i + |sep|] == (f + sep)[i..i + |sep|];
    }
  }

  /** The fields are recovered exactly if every one is clean for the separator that follows it. */
  lemma {:induction false} FieldsRecovered(fs: seq<string>, seps: seq<string>)
    requires |fs| == |seps| + 1
    ensures Fields(Joined(fs, seps), seps) == Some(fs) <==> forall k :: 0 <= k < |seps| ==> Clean(fs[k], seps[k])
    decreases |seps|
  {
    if seps == [] {
      assert fs == [fs[0]];
    } else {
      var rest := Joined(fs[1..], seps[1..]);
      var s := Joined(fs, seps);
      CleanIff(fs[0], seps[0], rest);
      FieldsRecovered(fs[1..], seps[1..]);
      if Clean(fs[0], seps[0]) {
        assert s[|fs[0]| + |seps[0]|..] == rest && s[..|fs[0]|] == fs[0];
        CleanTail(fs, seps);
        PrependIs(fs[0], Fields(rest, seps[1..]), fs);
        assert Fields(s, seps) == Prepend(fs[0], Fields(rest, seps[1..]));
      } else {
        ShorterField(fs, seps, s);
        assert !(forall k :: 0 <= k < |seps| ==> Clean(fs[k], seps[k]));
      }
    }
  }

  lemma CleanTail(fs: seq<string>, seps: seq<string>)
    requires |fs| == |seps| + 1 && seps != [] && Clean(fs[0], seps[0])
    ensures (forall k :: 0 <= k < |seps| ==> Clean(fs[k], seps[k])) <==>
            (forall k :: 0 <= k < |seps[1..]| ==> Clean(fs[1..][k], seps[1..][k]))
  {
    if forall k :: 0 <= k < |seps[1..]| ==> Clean(fs[1..][k], seps[1..][k]) {
      forall k | 0 <= k < |seps| ensures Clean(fs[k], seps[k]) { if k > 0 { assert Clean(fs[1..][k - 1], seps[1..][k - 1]); } }
    }
  }

  /** An earlier occurrence cuts the first field short. */
  lemma ShorterField(fs: seq<string>, seps: seq<string>, s: string)
    requires |fs| == |seps| + 1 && seps != [] && FirstFrom(s, seps[0], 0) != Some(|fs[0]|)
    ensures Fields(s, seps) != Some(fs)
  {
    FirstFromIs(s, seps[0], 0);
    var at := FirstFrom(s, seps[0], 0);
    if at.Some? { PrependIs(Cut(s, seps[0]).value.0, Fields(Cut(s, seps[0]).value.1, seps[1..]), fs); }
  }

  const CPP_IR := "__CPPIR__"
  const RUST_IR := "__RUSTIR__"
  const CPP_FUNCTION := "__CPP_FUNCTION__"
  const RUST_FUNCTION := "__RUST_FUNCTION__"
  const CPP_CODE := "__CPPCODE__"
  const RUST_CODE := "__RUSTCODE__"

  function ValidateCommand(cppIr: string, rustIr: string, cppFunction: string, rustFunction: string): string {
    "VALIDATE" + CPP_IR + cppIr + RUST_IR + rustIr + CPP_FUNCTION + cppFunction + RUST_FUNCTION + rustFunction
  }

  function GenerateCommand(cppCode: string, rustCode: string): string {
    "GENERATE" + CPP_CODE + cppCode + RUST_CODE + rustCode
  }

  /** All but the text before the first separator. */
  function Tail(fs: Option<seq<string>>): Option<seq<string>> {
    if fs.None? || fs.value == [] then None else Some(fs.value[1..])
  }

  /** Searching from a position is searching what is left. */
  lemma {:induction false} FirstShift(s: string, sep: string, from: nat, i: nat)
    requires from <= |s|
    ensures FirstFrom(s, sep, from + i) ==
            if FirstFrom(s[from..], sep, i).None? then None else Some(from + FirstFrom(s[from..], sep, i).value)
    decreases |s| + 1 - i
  {
    if from + i + |sep| <= |s| {
      assert s[from..][i..i + |sep|] == s[from + i..from + i + |sep|];
      if s[from + i..from + i + |sep|] != sep { FirstShift(s, sep, from, i + 1); }
    }
  }

  /** One search by position in the whole text is one step of `Fields` on what is left. */
  lemma Unfold(s: string, from: nat, seps: seq<string>)
    requires from <= |s| && seps != []
    ensures FirstFrom(s, seps[0], from).None? ==> Fields(s[from..], seps) == None
    ensures FirstFrom(s, seps[0], from).Some? ==>
              var p := FirstFrom(s, seps[0], from).value;
              from <= p && p + |seps[0]| <= |s| && Fields(s[from..], seps) == Prepend(s[from..p], Fields(s[p + |seps[0]|..], seps[1..]))
  {
    CutFrom(s, from, seps[0]);
  }

  lemma CutFrom(s: string, from: nat, sep: string)
    requires from <= |s|
    ensures FirstFrom(s, sep, from).None? ==> Cut(s[from..], sep) == None
    ensures FirstFrom(s, sep, from).Some? ==>
              var p := FirstFrom(s, sep, from).value;
              from <= p && p + |sep| <= |s| && Cut(s[from..], sep) == Some((s[from..p], s[p + |sep|..]))
  {
    var t := s[from..];
    FirstShift(s, sep, from, 0);
    FirstFromIs(t, sep, 0);
    if FirstFrom(t, sep, 0).Some? {
      var q := FirstFrom(t, sep, 0).value;
      assert t[..q] == s[from..from + q] && t[q + |sep|..] == s[from + q + |sep|..];
    }
  }

  /** The text between four separators and after the last, searched for one after the other. */
  method SplitFour(command: string, sep1: string, sep2: string, sep3: string, sep4: string) returns (r: Option<seq<string>>)
    ensures r == Tail(Fields(command, [sep1, sep2, sep3, sep4]))
  {
    assert command[0..] == command && [sep1, sep2, sep3, sep4][1..] == [sep2, sep3, sep4];
    var pos1 := Find(command, sep1, 0);
    CutFrom(command, 0, sep1);
    if pos1.None? { return None; }
    r := SplitThree(command, pos1.value + |sep1|, sep2, sep3, sep4);
    PrependIs(command[0..pos1.value], r, [""]);
  }

  method SplitThree(command: string, from: nat, sep2: string, sep3: string, sep4: string) returns (r: Option<seq<string>>)
    requires from <= |command|
    ensures r == Fields(command[from..], [sep2, sep3, sep4])
  {
    assert [sep2, sep3, sep4][1..] == [sep3, sep4];
    Unfold(command, from, [sep2, sep3, sep4]);
    var pos2 := Find(command, sep2, from);
    if pos2.None? { return None; }
    var two := SplitRest(command, pos2.value + |sep2|, sep3, sep4);
    r := Prepend(command[from..pos2.value], two);
  }

  method SplitRest(command: string, from: nat, sep3: string, sep4: string) returns (r: Option<seq<string>>)
    requires from <= |command|
    ensures r == Fields(command[from..], [sep3, sep4])
  {
    assert [sep3, sep4][1..] == [sep4];
    Unfold(command, from, [sep3, sep4]);
    var pos3 := Find(command, sep3, from);
    if pos3.None? { return None; }
    var one := SplitLast(command, pos3.value + |sep3|, sep4);
    r := Prepend(command[from..pos3.value], one);
  }

  method SplitLast(command: string, from: nat, sep: string) returns (r: Option<seq<string>>)
    requires from <= |command|
    ensures r == Fields(command[from..], [sep])
  {
    assert [sep][1..] == [];
    Unfold(command, from, [sep]);
    var pos := Find(command, sep, from);
    if pos.None? { return None; }
    r := Prepend(command[from..pos.value], Some([command[pos.value + |sep|..]]));
  }

  /** `handle_validate_command`: the four fields, or nothing for a bad command. */
  method ParseValidate(command: string) returns (r: Option<seq<string>>)
    ensures r == Tail(Fields(command, [CPP_IR, RUST_IR, CPP_FUNCTION, RUST_FUNCTION]))
  {
    r := SplitFour(command, CPP_IR, RUST_IR, CPP_FUNCTION, RUST_FUNCTION);
  }

  /** `handle_generate_command` */
  method ParseGenerate(command: string) returns (r: Option<seq<string>>)
    ensures r == Tail(Fields(command, [CPP_CODE, RUST_CODE]))
  {
    r := SplitTwo(command, CPP_CODE, RUST_CODE);
  }

  method SplitTwo(command: string, sep1: string, sep2: string) returns (r: Option<seq<string>>)
    ensures r == Tail(Fields(command, [sep1, sep2]))
  {
    assert command[0..] == command && [sep1, sep2][1..] == [sep2];
    Unfold(command, 0, [sep1, sep2]);
    var pos1 := Find(command, sep1, 0);
    if pos1.None? { return None; }
    PrependIs(command[0..pos1.value], Fields(command[pos1.value + |sep1|..], [sep2]), [""]);
    r := SplitLast(command, pos1.value + |sep1|, sep2);
  }

  /** A text that starts without the first character of the separator is clean. */
  lemma NoStart(f: string, sep: string)
    requires sep != "" && sep[0] !in f
    ensures Clean(f, sep)
  {
    forall i | 0 <= i < |f|
      ensures !OccursAt(f + sep, sep, i)
    {
      assert (f + sep)[i] == f[i];
      assert i + |sep| <= |f + sep| ==> (f + sep)[i..i + |sep|][0] == (f + sep)[i];
    }
  }

  /** The fields of a validate command arrive exactly if each is clean for what follows it. */
  lemma ValidateRoundTrip(cppIr: string, rustIr: string, cppFunction: string, rustFunction: string)
    ensures Tail(Fields(ValidateCommand(cppIr, rustIr, cppFunction, rustFunction), [CPP_IR, RUST_IR, CPP_FUNCTION, RUST_FUNCTION]))
              == Some([cppIr, rustIr, cppFunction, rustFunction])
            <==> Clean(cppIr, RUST_IR) && Clean(rustIr, CPP_FUNCTION) && Clean(cppFunction, RUST_FUNCTION)
  {
    NoStart("VALIDATE", CPP_IR);
    FourFields("VALIDATE", cppIr, rustIr, cppFunction, rustFunction, CPP_IR, RUST_IR, CPP_FUNCTION, RUST_FUNCTION);
  }

  lemma FourFields(lead: string, a: string, b: string, c: string, d: string, s1: string, s2: string, s3: string, s4: string)
    requires Clean(lead, s1)
    ensures Tail(Fields(lead + s1 + a + s2 + b + s3 + c + s4 + d, [s1, s2, s3, s4])) == Some([a, b, c, d])
            <==> Clean(a, s2) && Clean(b, s3) && Clean(c, s4)
  {
    var fs, seps := [lead, a, b, c, d], [s1, s2, s3, s4];
    FourJoined(lead, a, b, c, d, s1, s2, s3, s4);
    assert fs[1..] == [a, b, c, d];
    FieldsRecovered(fs, seps);
    LeadField(fs, seps);
    assert Clean(fs[0], seps[0]);
    assert (forall k :: 0 <= k < |seps| ==> Clean(fs[k], seps[k])) <==>
           Clean(fs[1], seps[1]) && Clean(fs[2], seps[2]) && Clean(fs[3], seps[3]);
  }

  lemma FourJoined(lead: string, a: string, b: string, c: string, d: string, s1: string, s2: string, s3: string, s4: string)
    ensures Joined([lead, a, b, c, d], [s1, s2, s3, s4]) == lead + s1 + a + s2 + b + s3 + c + s4 + d
  {
    assert [lead, a, b, c, d][1..] == [a, b, c, d] && [s1, s2, s3, s4][1..] == [s2, s3, s4];
    assert [a, b, c, d][1..] == [b, c, d] && [s2, s3, s4][1..] == [s3, s4];
    assert [b, c, d][1..] == [c, d] && [s3, s4][1..] == [s4];
    assert [c, d][1..] == [d] && [s4][1..] == [];
    assert Joined([c, d], [s4]) == c + s4 + d;
    assert Joined([b, c, d], [s3, s4]) == b + s3 + (c + s4 + d);
    assert Joined([a, b, c, d], [s2, s3, s4]) == a + s2 + (b + s3 + (c + s4 + d));
  }

  lemma GenerateRoundTrip(cppCode: string, rustCode: string)
    ensures Tail(Fields(GenerateCommand(cppCode, rustCode), [CPP_CODE, RUST_CODE])) == Some([cppCode, rustCode])
            <==> Clean(cppCode, RUST_CODE)
  {
    var fs := ["GENERATE", cppCode, rustCode];
    var seps := [CPP_CODE, RUST_CODE];
    assert fs[1..] == [cppCode, rustCode] && seps[1..] == [RUST_CODE];
    assert Joined(fs[1..], seps[1..]) == cppCode + RUST_CODE + rustCode;
    assert Joined(fs, seps) == GenerateCommand(cppCode, rustCode);
    NoStart("GENERATE", CPP_CODE);
    FieldsRecovered(fs, seps);
    LeadField(fs, seps);
    assert Clean(fs[0], seps[0]);
    assert (forall k :: 0 <= k < |seps| ==> Clean(fs[k], seps[k])) <==> Clean(fs[1], seps[1]);
  }

  /** If the text before the first separator is clean, it is split off unchanged. */
  lemma LeadField(fs: seq<string>, seps: seq<string>)
    requires |fs| == |seps| + 1 && seps != [] && Clean(fs[0], seps[0])
    ensures Tail(Fields(Joined(fs, seps), seps)) == Some(fs[1..]) <==> Fields(Joined(fs, seps), seps) == Some(fs)
  {
    var rest := Joined(fs[1..], seps[1..]);
    var s := Joined(fs, seps);
    CleanIff(fs[0], seps[0], rest);
    assert s[..|fs[0]|] == fs[0] && s[|fs[0]| + |seps[0]|..] == rest;
    PrependIs(fs[0], Fields(rest, seps[1..]), fs);
  }

  const IR_SEPARATOR := "__GENERATED_IR_SEPARATOR__"

  /** Splitting the response of a generate command. Without a separator the first part
      is the whole text, and the position of the second wraps around to one before the
      length of the separator; a text shorter than that is an error. */
  method SplitIr(result: string) returns (r: Option<(string, string)>)
    ensures r == IrParts(result)
  {
    var irs := Find(result, IR_SEPARATOR, 0);
    FirstFromIs(result, IR_SEPARATOR, 0);
    assert [IR_SEPARATOR][1..] == [];
    if irs.Some? {
      assert Fields(result[irs.value + |IR_SEPARATOR|..], []) == Some([result[irs.value + |IR_SEPARATOR|..]]);
      r := Some((result[..irs.value], result[irs.value + |IR_SEPARATOR|..]));
    } else {
      r := if |IR_SEPARATOR| - 1 <= |result| then Some((result, result[|IR_SEPARATOR| - 1..])) else None;
    }
  }

  function IrParts(result: string): Option<(string, string)> {
    var fs := Fields(result, [IR_SEPARATOR]);
    if fs.Some? && |fs.value| == 2 then Some((fs.value[0], fs.value[1]))
    else if |IR_SEPARATOR| - 1 <= |result| then Some((result, result[|IR_SEPARATOR| - 1..]))
    else None
  }

  /** The two files arrive exactly if the first is clean for the separator. */
  lemma IrRoundTrip(cppIr: string, rustIr: string)
    ensures IrParts(cppIr + IR_SEPARATOR + rustIr) == Some((cppIr, rustIr)) <==> Clean(cppIr, IR_SEPARATOR)
  {
    TwoFields(cppIr, rustIr, IR_SEPARATOR);
  }

  lemma TwoFields(a: string, b: string, sep: string)
    ensures
      var r := Fields(a + sep + b, [sep]);
      r.Some? && |r.value| == 2 && ((r.value[0], r.value[1]) == (a, b) <==> Clean(a, sep))
  {
    var s := a + sep + b;
    var fs, seps := [a, b], [sep];
    assert fs[1..] == [b] && seps[1..] == [];
    assert Joined(fs, seps) == s;
    FieldsRecovered(fs, seps);
    FirstFromIs(s, sep, 0);
    assert s[|a|..|a| + |sep|] == sep;
    assert OccursAt(s, sep, |a|);
    var c := Cut(s, sep);
    assert c.Some? && Fields(c.value.1, []) == Some([c.value.1]);
    assert [c.value.0] + [c.value.1] == [c.value.0, c.value.1];
    assert Fields(s, seps) == Some([c.value.0, c.value.1]);
    assert (forall k :: 0 <= k < |seps| ==> Clean(fs[k], seps[k])) <==> Clean(fs[0], seps[0]);
    assert [c.value.0, c.value.1] == fs <==> c.value.0 == a && c.value.1 == b by {
      assert [c.value.0, c.value.1][0] == c.value.0 && [c.value.0, c.value.1][1] == c.value.1;
    }
  }
}
