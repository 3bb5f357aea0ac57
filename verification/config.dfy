/** config.c: the runtime configuration and its line-oriented file format.
    A line is `name = value`, `#` starts a comment, and three names are
    known. Opening and reading the file and resolving an address are left to
    the caller: a configuration file is given as its lines, and address
    resolution as a function. */
module Config {
  import opened Bytes

  // ---------------------------------------------------------------------
  // The configuration

  /** An IPv4 address as the 32-bit value getaddrinfo yields. */
  type Address = U32

  /** `INADDR_ANY`. */
  const ANY_ADDRESS: Address := 0

  /** The largest port number parse_variable accepts. */
  const MAX_PORT: int := 0xFFFF

  /** The size of the static `log_filename` buffer, terminator included. */
  const LOG_FILENAME_SIZE: nat := 0x400

  datatype RuntimeConfig = RuntimeConfig(address: Address, port: int, logFilename: string)

  /** The static configuration before any file is read. */
  const DEFAULT: RuntimeConfig := RuntimeConfig(ANY_ADDRESS, 5555, "/tmp/cik-server.log")

  // ---------------------------------------------------------------------
  // Characters, as the C string functions see them

  /** `isspace` in the C locale. */
  predicate IsSpace(ch: char)
  {
    ch == ' ' || '\t' <= ch <= '\r'
  }

  /** The character at `i` of a C string held in `s`: past the end there is
      only the terminator. */
  function At(s: string, i: nat): char
  {
    if i < |s| then s[i] else '\0'
  }

  predicate IsNameEnd(ch: char)
  {
    IsSpace(ch) || ch == '=' || ch == '\0'
  }

  /** The first position from `i` on that is not white space. */
  function SkipSpace(s: string, i: nat): (j: nat)
    requires i <= |s|
    ensures i <= j <= |s| && !IsSpace(At(s, j))
    decreases |s| - i
  {
    if i < |s| && IsSpace(s[i]) then SkipSpace(s, i + 1) else i
  }

  /** The first position from `i` on that ends a name. */
  function NameEnd(s: string, i: nat): (j: nat)
    requires i <= |s|
    ensures i <= j <= |s| && IsNameEnd(At(s, j))
    decreases |s| - i
  {
    if i < |s| && !IsNameEnd(s[i]) then NameEnd(s, i + 1) else i
  }

  /** The terminator of the C string starting at `i`. */
  function StrEnd(s: string, i: nat): (j: nat)
    requires i <= |s|
    ensures i <= j <= |s| && At(s, j) == '\0'
    decreases |s| - i
  {
    if i < |s| && s[i] != '\0' then StrEnd(s, i + 1) else i
  }

  /** No character before the name's end ends a name. */
  lemma {:induction false} NameEndRun(s: string, i: nat)
    requires i <= |s|
    ensures forall k :: i <= k < NameEnd(s, i) ==> !IsNameEnd(s[k])
    decreases |s| - i
  {
    if i < |s| && !IsNameEnd(s[i]) {
      NameEndRun(s, i + 1);
    }
  }

  /** A run of name characters up to one that ends the name is where
      NameEnd stops. */
  lemma {:induction false} NameEndAt(s: string, i: nat, j: nat)
    requires i <= j <= |s| && IsNameEnd(At(s, j))
    requires forall k :: i <= k < j ==> !IsNameEnd(s[k])
    ensures NameEnd(s, i) == j
    decreases j - i
  {
    if i < j {
      NameEndAt(s, i + 1, j);
    }
  }

  /** No terminator comes before the one StrEnd finds. */
  lemma {:induction false} StrEndRun(s: string, i: nat)
    requires i <= |s|
    ensures forall k :: i <= k < StrEnd(s, i) ==> s[k] != '\0'
    decreases |s| - i
  {
    if i < |s| && s[i] != '\0' {
      StrEndRun(s, i + 1);
    }
  }

  /** Backs `hi` over trailing white space; the character at `lo` is not
      white space, so the value keeps at least one character. */
  function TrimEnd(s: string, lo: nat, hi: nat): (j: nat)
    requires lo < hi <= |s| && !IsSpace(s[lo])
    ensures lo < j <= hi && !IsSpace(s[j - 1])
    decreases hi
  {
    if IsSpace(s[hi - 1]) then TrimEnd(s, lo, hi - 1) else hi
  }

  // ---------------------------------------------------------------------
  // One line

  /** What parse_args makes of one line: skipped silently (blank, or a name
      running into the end of the string), a comment, one of the two
      reported errors, or an assignment handed to parse_variable. */
  datatype Line =
    | Skipped
    | Comment
    | MissingAssignment
    | EmptyValue
    | Assignment(name: string, value: string)

  /** Everything after the name's terminator, which the caller has located
      at `e` and overwritten: white space, `=`, white space, the value up to
      the end of the string less its trailing white space. */
  function AfterName(s: string, name: string, from: nat): (r: Line)
    requires from <= |s|
    ensures r.Assignment? ==> r.name == name && IsValue(r.value)
  {
    var c := SkipSpace(s, from);
    if At(s, c) != '=' then MissingAssignment
    else
      var v := SkipSpace(s, c + 1);
      if At(s, v) == '\0' then EmptyValue
      else
        var end := StrEnd(s, v);
        var t := TrimEnd(s, v, end);
        StrEndRun(s, v);
        SliceIsValue(s, v, t);
        Assignment(name, s[v..t])
  }

  /** The tokenizer of parse_args as written. The name stops at white
      space or `=`, and that character is overwritten by the terminator
      before `=` is looked for, so an `=` right after the name is lost. */
  function ParseLineAsWritten(s: string): (r: Line)
    ensures r.Assignment? ==> IsName(r.name) && IsValue(r.value)
  {
    var c := SkipSpace(s, 0);
    if At(s, c) == '#' then Comment
    else
      var e := NameEnd(s, c);
      if At(s, e) == '\0' then Skipped
      else
        NameShape(s, c, e);
        AfterName(s, s[c..e], e + 1)
  }

  /** The tokenizer with an `=` ending the name taken as the assignment.
      Every assignment it yields has a proper name and value. */
  function ParseLine(s: string): (r: Line)
    ensures r.Assignment? ==> IsName(r.name) && IsValue(r.value)
  {
    var c := SkipSpace(s, 0);
    if At(s, c) == '#' then Comment
    else
      var e := NameEnd(s, c);
      if At(s, e) == '\0' then Skipped
      else
        NameShape(s, c, e);
        AfterName(s, s[c..e], if s[e] == '=' then e else e + 1)
  }

  /** A name as the tokenizer delimits it (an `=` opening the line gives
      the empty name). */
  predicate IsName(name: string)
  {
    (|name| > 0 ==> name[0] != '#') && forall k :: 0 <= k < |name| ==> !IsNameEnd(name[k])
  }

  /** A value as the tokenizer delimits it: no terminator inside, no white
      space at either end. */
  predicate IsValue(value: string)
  {
    && |value| > 0 && !IsSpace(value[0]) && !IsSpace(value[|value| - 1])
    && forall k :: 0 <= k < |value| ==> value[k] != '\0'
  }

  /** The stretch the tokenizer takes for the name is a name. */
  lemma NameShape(s: string, c: nat, e: nat)
    requires c <= |s| && At(s, c) != '#' && e == NameEnd(s, c)
    ensures IsName(s[c..e])
  {
    var name := s[c..e];
    NameEndRun(s, c);
    assert forall k :: 0 <= k < |name| ==> name[k] == s[c + k];
  }

  /** A stretch without terminator that starts and ends outside white
      space is a value. */
  lemma SliceIsValue(s: string, v: nat, t: nat)
    requires v < t <= |s| && !IsSpace(s[v]) && !IsSpace(s[t - 1])
    requires forall k :: v <= k < t ==> s[k] != '\0'
    ensures IsValue(s[v..t])
  {
    var value := s[v..t];
    assert value[0] == s[v] && value[|value| - 1] == s[t - 1];
    forall k | 0 <= k < |value|
      ensures value[k] != '\0'
    {
      assert value[k] == s[v + k];
    }
  }

  /** A line whose first non-blank character is `#` is a comment. */
  lemma CommentLine(indent: string, rest: string)
    requires forall k :: 0 <= k < |indent| ==> IsSpace(indent[k])
    ensures ParseLine(indent + "#" + rest) == Comment
    ensures ParseLineAsWritten(indent + "#" + rest) == Comment
  {
    var s := indent + "#" + rest;
    SkipSpaceOver(s, indent, 0);
  }

  /** Skipping white space from `i` passes over a run of white space that
      starts there and stops at the next character when that is not white
      space. */
  lemma {:induction false} SkipSpaceOver(s: string, run: string, i: nat)
    requires i + |run| < |s| && s[i..i + |run|] == run && !IsSpace(s[i + |run|])
    requires forall k :: 0 <= k < |run| ==> IsSpace(run[k])
    ensures SkipSpace(s, i) == i + |run|
    decreases |run|
  {
    if |run| > 0 {
      assert s[i] == run[0];
      assert s[i + 1..i + |run|] == run[1..];
      SkipSpaceOver(s, run[1..], i + 1);
    }
  }

  /** A line opening with a non-empty name: the name is where the
      tokenizer finds it. */
  lemma NameStart(s: string, name: string)
    requires |name| > 0 && IsName(name) && |name| < |s| && s[..|name|] == name && IsNameEnd(s[|name|])
    ensures SkipSpace(s, 0) == 0 && At(s, 0) != '#'
    ensures NameEnd(s, 0) == |name| && s[0..NameEnd(s, 0)] == name
  {
    assert s[0] == name[0];
    assert forall k :: 0 <= k < |name| ==> s[k] == name[k];
    NameEndAt(s, 0, |name|);
  }

  /** A value running to the end of the line, or to a final newline, is
      read whole. */
  lemma ValueAt(s: string, v: nat, value: string, eol: string)
    requires IsValue(value) && (eol == "" || eol == "\n")
    requires v <= |s| && s[v..] == value + eol
    ensures At(s, v) != '\0' && StrEnd(s, v) == |s|
    ensures TrimEnd(s, v, |s|) == v + |value| && s[v..v + |value|] == value
  {
    assert s[v] == value[0];
    assert s[v + |value| - 1] == value[|value| - 1];
    assert s[v..v + |value|] == (value + eol)[..|value|];
    if eol == "\n" {
      assert s[|s| - 1] == '\n';
      assert TrimEnd(s, v, |s|) == TrimEnd(s, v, |s| - 1);
    }
  }

  /** Skipping white space stops at once on anything else. */
  lemma SkipSpaceStops(s: string, i: nat)
    requires i < |s| && !IsSpace(s[i])
    ensures SkipSpace(s, i) == i
  {
  }

  /** From just past the name: optional white space, `=`, white space up
      to `v`, and a value running from `v` to its end `t` (trailing white
      space excepted) make the assignment. */
  lemma AfterNameValue(s: string, name: string, from: nat, c: nat, v: nat, t: nat)
    requires from <= |s| && SkipSpace(s, from) == c && At(s, c) == '='
    requires SkipSpace(s, c + 1) == v && At(s, v) != '\0'
    requires v < |s| && TrimEnd(s, v, StrEnd(s, v)) == t
    ensures AfterName(s, name, from) == Assignment(name, s[v..t])
  {
  }

  /** The layout of `name = value` followed by an optional newline. */
  lemma SpacedLine(s: string, name: string, value: string, eol: string)
    requires |name| > 0 && IsName(name) && IsValue(value)
    requires eol == "" || eol == "\n"
    requires var n := |name|;
             && |s| == n + 3 + |value| + |eol| && s[..n] == name
             && s[n] == ' ' && s[n + 1] == '=' && s[n + 2] == ' ' && s[n + 3..] == value + eol
    ensures ParseLine(s) == Assignment(name, value)
    ensures ParseLineAsWritten(s) == Assignment(name, value)
  {
    var n := |name|;
    NameStart(s, name);
    SkipSpaceStops(s, n + 1);
    assert s[n + 3] == value[0];
    SkipSpaceStops(s, n + 3);
    assert SkipSpace(s, n + 2) == n + 3;
    ValueAt(s, n + 3, value, eol);
    AfterNameValue(s, name, n + 1, n + 1, n + 3, n + 3 + |value|);
  }

  /** `name = value` (with a newline or not) parses to that assignment. */
  lemma AssignmentRoundTrip(name: string, value: string, eol: string)
    requires |name| > 0 && IsName(name) && IsValue(value)
    requires eol == "" || eol == "\n"
    ensures ParseLine(name + " = " + value + eol) == Assignment(name, value)
    ensures ParseLineAsWritten(name + " = " + value + eol) == Assignment(name, value)
  {
    var s := name + " = " + value + eol;
    var n := |name|;
    assert s[..n] == name;
    assert s[n] == ' ' && s[n + 1] == '=' && s[n + 2] == ' ';
    assert s[n + 3..] == value + eol;
    SpacedLine(s, name, value, eol);
  }

  /** The layout of `name=value`. */
  lemma TightLine(s: string, name: string, value: string)
    requires |name| > 0 && IsName(name) && IsValue(value)
    requires var n := |name|;
             |s| == n + 1 + |value| && s[..n] == name && s[n] == '=' && s[n + 1..] == value + ""
    ensures ParseLine(s) == Assignment(name, value)
  {
    var n := |name|;
    NameStart(s, name);
    assert s[n + 1] == value[0];
    SkipSpaceStops(s, n + 1);
    ValueAt(s, n + 1, value, "");
    AfterNameValue(s, name, n, n, n + 1, n + 1 + |value|);
  }

  /** `name=value` parses to that assignment once `=` may end the name. */
  lemma TightAssignmentRoundTrip(name: string, value: string)
    requires |name| > 0 && IsName(name) && IsValue(value)
    ensures ParseLine(name + "=" + value) == Assignment(name, value)
  {
    var s := name + "=" + value;
    var n := |name|;
    assert s[..n] == name && s[n] == '=';
    assert s[n + 1..] == value + "";
    TightLine(s, name, value);
  }

  /** As written, `name=value` is a missing assignment unless the value
      itself opens with `=`. */
  lemma TightAssignmentAsWritten(name: string, value: string)
    requires |name| > 0 && IsName(name) && IsValue(value) && value[0] != '='
    ensures ParseLineAsWritten(name + "=" + value) == MissingAssignment
  {
    var s := name + "=" + value;
    var n := |name|;
    assert s[..n] == name && s[n] == '=';
    NameStart(s, name);
    assert s[n + 1] == value[0];
    assert SkipSpace(s, n + 1) == n + 1;
  }

  /** The two tokenizers differ only where `=` directly follows the name. */
  lemma ParseLineAgrees(s: string)
    requires var e := NameEnd(s, SkipSpace(s, 0)); At(s, e) != '='
    ensures ParseLineAsWritten(s) == ParseLine(s)
  {
  }

  /** `listen_port=6000` is reported as a missing assignment as written,
      and sets the port once `=` may end the name. */
  lemma TightAssignmentRejected()
    ensures ParseLineAsWritten("listen_port=6000") == MissingAssignment
    ensures ParseLine("listen_port=6000") == Assignment("listen_port", "6000")
  {
    var name := "listen_port";
    var value := "6000";
    assert IsName(name) && IsValue(value);
    assert name + "=" + value == "listen_port=6000";
    TightAssignmentAsWritten(name, value);
    TightAssignmentRoundTrip(name, value);
  }

  // ---------------------------------------------------------------------
  // strtol, base 10

  predicate IsDigit(ch: char)
  {
    '0' <= ch <= '9'
  }

  function DigitValue(ch: char): (d: nat)
    requires IsDigit(ch)
    ensures d < 10
  {
    ch as int - '0' as int
  }

  /** The value of a run of decimal digits, most significant first. */
  function Digits(d: string): (n: nat)
    requires forall k :: 0 <= k < |d| ==> IsDigit(d[k])
    decreases |d|
  {
    if |d| == 0 then 0 else Digits(d[..|d| - 1]) * 10 + DigitValue(d[|d| - 1])
  }

  /** The end of the run of digits starting at `i`. */
  function DigitRun(s: string, i: nat): (j: nat)
    requires i <= |s|
    ensures i <= j <= |s| && (j < |s| ==> !IsDigit(s[j]))
    ensures forall k :: i <= k < j ==> IsDigit(s[k])
    decreases |s| - i
  {
    if i < |s| && IsDigit(s[i]) then DigitRun(s, i + 1) else i
  }

  /** `strtol(value, &endptr, 10)`: leading white space, an optional sign,
      then digits; `None` where no digit follows (endptr == value). The
      value is unbounded here; strtol's clamping to LONG_MAX lands outside
      the port range just the same. */
  function Strtol(s: string): (r: Option<int>)
  {
    var i := SkipSpace(s, 0);
    var sign := if i < |s| && (s[i] == '-' || s[i] == '+') then 1 else 0;
    var end := DigitRun(s, i + sign);
    if end == i + sign then None
    else
      var n: int := Digits(s[i + sign..end]);
      Some(if sign == 1 && s[i] == '-' then -n else n)
  }

  /** The decimal digits of `n`, most significant first. */
  function Decimal(n: nat): (d: string)
    ensures |d| > 0 && forall k :: 0 <= k < |d| ==> IsDigit(d[k])
    decreases n
  {
    var last := ['0' + ((n % 10) as char)];
    if n < 10 then last else Decimal(n / 10) + last
  }

  lemma {:induction false} DecimalDigits(n: nat)
    ensures Digits(Decimal(n)) == n
    decreases n
  {
    var d := Decimal(n);
    assert d[..|d| - 1] == (if n < 10 then "" else Decimal(n / 10));
    if n >= 10 {
      DecimalDigits(n / 10);
    }
  }

  /** strtol reads back a number written in decimal, whatever non-digit
      text follows it. */
  lemma StrtolDecimal(n: nat, junk: string)
    requires |junk| == 0 || !IsDigit(junk[0])
    ensures Strtol(Decimal(n) + junk) == Some(n)
  {
    var d := Decimal(n);
    var s := d + junk;
    assert !IsSpace(s[0]) && s[0] != '-' && s[0] != '+';
    assert SkipSpace(s, 0) == 0;
    var end := DigitRun(s, 0);
    assert forall k :: 0 <= k < |d| ==> s[k] == d[k];
    if |junk| > 0 {
      assert s[|d|] == junk[0] && !IsDigit(s[|d|]);
    }
    assert end == |d|;
    assert s[..end] == d;
    DecimalDigits(n);
  }

  // ---------------------------------------------------------------------
  // parse_variable

  /** parse_variable. `resolve` stands for getaddrinfo: the first IPv4
      stream address found for the value, if any. */
  function ParseVariable(cfg: RuntimeConfig, name: string, value: string,
                         resolve: string -> Option<Address>): (r: RuntimeConfig)
  {
    if name == "listen_address" then
      match resolve(value)
      case None => cfg
      case Some(a) => cfg.(address := a)
    else if name == "listen_port" then
      match Strtol(value)
      case None => cfg
      case Some(port) => if port < 0 || port > MAX_PORT then cfg else cfg.(port := port)
    else if name == "log_filename" then
      cfg.(logFilename := value[..if |value| < LOG_FILENAME_SIZE then |value| else LOG_FILENAME_SIZE - 1])
    else cfg
  }

  /** Each known name changes its own field and nothing else; a port is
      taken only when it parses and lies in 0..65535; a file name keeps its
      first 1023 characters; an unknown name changes nothing. */
  lemma ParseVariableSpec(cfg: RuntimeConfig, name: string, value: string,
                          resolve: string -> Option<Address>)
    ensures var r := ParseVariable(cfg, name, value, resolve);
            && (name !in {"listen_address", "listen_port", "log_filename"} ==> r == cfg)
            && (name == "listen_address" ==>
                  r == if resolve(value).Some? then cfg.(address := resolve(value).value) else cfg)
            && (name == "listen_port" ==>
                  && r.address == cfg.address && r.logFilename == cfg.logFilename
                  && (r.port != cfg.port ==> Strtol(value) == Some(r.port))
                  && (Strtol(value).Some? && 0 <= Strtol(value).value <= MAX_PORT ==> r.port == Strtol(value).value)
                  && (Strtol(value).None? || Strtol(value).value < 0 || Strtol(value).value > MAX_PORT ==> r == cfg))
            && (name == "log_filename" ==>
                  && r.address == cfg.address && r.port == cfg.port
                  && |r.logFilename| < LOG_FILENAME_SIZE
                  && r.logFilename <= value
                  && (|value| < LOG_FILENAME_SIZE ==> r.logFilename == value)
                  && (|value| >= LOG_FILENAME_SIZE ==> r.logFilename == value[..LOG_FILENAME_SIZE - 1]))
  {
  }

  /** A port written in decimal, with anything but a digit after it, is
      the port set; a number past 65535 changes nothing. */
  lemma PortRoundTrip(cfg: RuntimeConfig, n: nat, junk: string, resolve: string -> Option<Address>)
    requires |junk| == 0 || !IsDigit(junk[0])
    ensures n <= MAX_PORT ==> ParseVariable(cfg, "listen_port", Decimal(n) + junk, resolve) == cfg.(port := n)
    ensures n > MAX_PORT ==> ParseVariable(cfg, "listen_port", Decimal(n) + junk, resolve) == cfg
  {
    StrtolDecimal(n, junk);
  }

  // ---------------------------------------------------------------------
  // parse_args

  /** Which tokenizer splits the lines: the loop of parse_args as written,
      or the corrected one that also accepts `name=value`. */
  datatype Tokenizer = AsWritten | Corrected

  function Split(t: Tokenizer, line: string): (r: Line)
    ensures t == AsWritten ==> r == ParseLineAsWritten(line)
    ensures t == Corrected ==> r == ParseLine(line)
  {
    match t
    case AsWritten => ParseLineAsWritten(line)
    case Corrected => ParseLine(line)
  }

  /** One line applied to the configuration: only an assignment reaches
      parse_variable. */
  function ApplyLine(t: Tokenizer, cfg: RuntimeConfig, line: string, resolve: string -> Option<Address>): RuntimeConfig
  {
    match Split(t, line)
    case Assignment(name, value) => ParseVariable(cfg, name, value, resolve)
    case _ => cfg
  }

  function ApplyLines(t: Tokenizer, cfg: RuntimeConfig, lines: seq<string>, resolve: string -> Option<Address>): (r: RuntimeConfig)
    decreases |lines|
  {
    if |lines| == 0 then cfg
    else ApplyLine(t, ApplyLines(t, cfg, lines[..|lines| - 1], resolve), lines[|lines| - 1], resolve)
  }

  /** The shared body of both parse_args versions: with no argument the
      defaults; with a file that cannot be opened nothing; otherwise the
      defaults with every line applied in order. `file` is the file's
      lines, or `None` when fopen fails. */
  function ParseArgsWith(t: Tokenizer, argc: int, file: Option<seq<string>>, resolve: string -> Option<Address>): (r: Option<RuntimeConfig>)
    requires argc > 0
  {
    if argc == 1 then Some(DEFAULT)
    else if file.None? then None
    else Some(ApplyLines(t, DEFAULT, file.value, resolve))
  }

  /** parse_args as written. */
  function ParseArgs(argc: int, file: Option<seq<string>>, resolve: string -> Option<Address>): (r: Option<RuntimeConfig>)
    requires argc > 0
    ensures argc == 1 ==> r == Some(DEFAULT)
    ensures argc > 1 ==> (r.Some? <==> file.Some?)
  {
    ParseArgsWith(AsWritten, argc, file, resolve)
  }

  /** parse_args with the corrected tokenizer. */
  function ParseArgsCorrected(argc: int, file: Option<seq<string>>, resolve: string -> Option<Address>): (r: Option<RuntimeConfig>)
    requires argc > 0
    ensures argc == 1 ==> r == Some(DEFAULT)
    ensures argc > 1 ==> (r.Some? <==> file.Some?)
  {
    ParseArgsWith(Corrected, argc, file, resolve)
  }

  /** Lines that assign nothing leave the configuration as it was. */
  lemma {:induction false} NoAssignmentsKeep(t: Tokenizer, cfg: RuntimeConfig, lines: seq<string>, resolve: string -> Option<Address>)
    requires forall i :: 0 <= i < |lines| ==> !Split(t, lines[i]).Assignment?
    ensures ApplyLines(t, cfg, lines, resolve) == cfg
    decreases |lines|
  {
    if |lines| > 0 {
      NoAssignmentsKeep(t, cfg, lines[..|lines| - 1], resolve);
    }
  }

  /** Later lines win: a file is the configuration its first part leaves,
      with its second part applied on top. */
  lemma {:induction false} ApplyLinesAppend(t: Tokenizer, cfg: RuntimeConfig, a: seq<string>, b: seq<string>,
                                            resolve: string -> Option<Address>)
    ensures ApplyLines(t, cfg, a + b, resolve) == ApplyLines(t, ApplyLines(t, cfg, a, resolve), b, resolve)
    decreases |b|
  {
    if |b| > 0 {
      assert (a + b)[..|a + b| - 1] == a + b[..|b| - 1];
      ApplyLinesAppend(t, cfg, a, b[..|b| - 1], resolve);
    } else {
      assert a + b == a;
    }
  }

  /** Without an argument, and with a file of comments and blank lines, the
      defaults stand: any address, port 5555, /tmp/cik-server.log. */
  lemma ParseArgsDefaults(argc: int, file: Option<seq<string>>, resolve: string -> Option<Address>)
    requires argc > 0
    requires file.Some? ==> forall i :: 0 <= i < |file.value| ==> !ParseLineAsWritten(file.value[i]).Assignment?
    ensures ParseArgs(argc, file, resolve).Some? ==>
              ParseArgs(argc, file, resolve).value == RuntimeConfig(ANY_ADDRESS, 5555, "/tmp/cik-server.log")
  {
    if argc > 1 && file.Some? {
      NoAssignmentsKeep(AsWritten, DEFAULT, file.value, resolve);
    }
  }

  /** A spaced assignment line ending the file is handed to parse_variable
      on top of what the earlier lines left. */
  lemma SpacedAssignmentApplies(lines: seq<string>, name: string, value: string, eol: string,
                                resolve: string -> Option<Address>)
    requires |name| > 0 && IsName(name) && IsValue(value)
    requires eol == "" || eol == "\n"
    ensures ParseArgs(2, Some(lines + [name + " = " + value + eol]), resolve)
         == Some(ParseVariable(ApplyLines(AsWritten, DEFAULT, lines, resolve), name, value, resolve))
  {
    var all := lines + [name + " = " + value + eol];
    assert all[..|all| - 1] == lines;
    AssignmentRoundTrip(name, value, eol);
  }

  /** The two versions read the same configuration from a file in which no
      name is followed directly by `=`. */
  lemma {:induction false} ApplyLinesAgree(cfg: RuntimeConfig, lines: seq<string>, resolve: string -> Option<Address>)
    requires forall i :: 0 <= i < |lines| ==> At(lines[i], NameEnd(lines[i], SkipSpace(lines[i], 0))) != '='
    ensures ApplyLines(AsWritten, cfg, lines, resolve) == ApplyLines(Corrected, cfg, lines, resolve)
    decreases |lines|
  {
    if |lines| > 0 {
      var last := lines[|lines| - 1];
      ApplyLinesAgree(cfg, lines[..|lines| - 1], resolve);
      ParseLineAgrees(last);
    }
  }

  lemma ParseArgsAgrees(argc: int, file: Option<seq<string>>, resolve: string -> Option<Address>)
    requires argc > 0
    requires file.Some? ==> forall i :: 0 <= i < |file.value| ==>
               At(file.value[i], NameEnd(file.value[i], SkipSpace(file.value[i], 0))) != '='
    ensures ParseArgs(argc, file, resolve) == ParseArgsCorrected(argc, file, resolve)
  {
    if argc > 1 && file.Some? {
      ApplyLinesAgree(DEFAULT, file.value, resolve);
    }
  }

  /** A file holding only `listen_port=6000` leaves port 5555 as written;
      the corrected version sets port 6000. */
  lemma TightPortIgnored(resolve: string -> Option<Address>)
    ensures ParseArgs(2, Some(["listen_port=6000"]), resolve) == Some(DEFAULT)
    ensures ParseArgsCorrected(2, Some(["listen_port=6000"]), resolve) == Some(DEFAULT.(port := 6000))
  {
    var file := ["listen_port=6000"];
    assert file[..0] == [];
    TightAssignmentRejected();
    assert ApplyLine(AsWritten, DEFAULT, file[0], resolve) == DEFAULT;
    Port6000();
    assert ApplyLine(Corrected, DEFAULT, file[0], resolve) == ParseVariable(DEFAULT, "listen_port", "6000", resolve);
  }

  /** strtol reads "6000" as 6000. */
  lemma Port6000()
    ensures Strtol("6000") == Some(6000)
  {
    assert Decimal(6) == "6";
    assert Decimal(60) == "60";
    assert Decimal(600) == "600";
    assert Decimal(6000) == "6000";
    StrtolDecimal(6000, "");
    assert Decimal(6000) + "" == "6000";
  }
}
