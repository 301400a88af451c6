/** Request parsing (src/request.rs, `Request::new`).

    The request lines are the lines of the request head, without line
    terminators. The first line is split on whitespace into a verb and a
    path; every later line that contains a colon is split on `": "` into a
    header name and value, collected into a map. Each `unwrap` that can
    panic in the source is an `Err` here. */
module Requests {
  import opened Wrappers
  import opened Strings
  import opened Routes

  /** `Request`: the method descriptor and the header map. */
  datatype Request = Request(descriptor: Method, headers: map<string, string>)

  /** Where `Request::new` panics. */
  datatype ParseError =
    | NoRequestLine          // `first().unwrap()` on an empty list
    | MalformedRequestLine   // `get(0)` or `get(1)` finds no token
    | UnsupportedMethod      // `Method::try_from` returns `Err(())`
    | MalformedHeader        // a line with `:` but no `": "`: the second `next()` is `None`

  /** What a later line contributes to the header map. */
  datatype HeaderLine =
    | NotHeader                           // no `:` at all: filtered out
    | Malformed                           // `:` but no `": "`
    | Field(name: string, value: string)

  /** `line` reads `name: value` and then either ends or goes on with
      another `": "`; neither the name nor the value holds `": "`. */
  predicate FieldLayout(line: string, name: string, value: string) {
    var end := |name| + 2 + |value|;
    && !ContainsSep(name)
    && !ContainsSep(value)
    && end <= |line|
    && line[..end] == name + ": " + value
    && (end == |line| || SepAt(line, end))
  }

  /** The filter and the `split(": ")` of one later line: the name is the
      text before the first `": "`, the value the text between the first and
      the second one (or the rest of the line when there is no second). */
  function Classify(line: string): (r: HeaderLine)
    ensures r.NotHeader? <==> ':' !in line
    ensures r.Malformed? <==> ':' in line && !ContainsSep(line)
    ensures r.Field? ==> FieldLayout(line, r.name, r.value)
  {
    if ':' !in line then NotHeader
    else
      match FindSep(line)
      case None => Malformed
      case Some(i) =>
        var rest := line[i + 2..];
        PrefixWithoutSep(line, i);
        assert line[..i + 2] == line[..i] + ": ";
        match FindSep(rest)
        case None =>
          assert line == line[..i] + ": " + rest;
          Field(line[..i], rest)
        case Some(j) =>
          PrefixWithoutSep(rest, j);
          assert line[..i + 2 + j] == line[..i] + ": " + rest[..j];
          assert SepAt(line, i + 2 + j) by { assert line[i + 2 + j] == rest[j] && line[i + 3 + j] == rest[j + 1]; }
          Field(line[..i], rest[..j])
  }

  /** `name: value` with neither part holding `": "` reads back as exactly
      that header. */
  lemma ClassifyField(name: string, value: string)
    requires !ContainsSep(name) && !ContainsSep(value)
    ensures Classify(name + ": " + value) == Field(name, value)
  {
    var line := name + ": " + value;
    FindSepAfter(name, value);
    assert line[..|name|] == name && line[|name| + 2..] == value;
    NoSepFound(value);
  }

  /** A value holding a second `": "` is cut there: `name: a: b` gives `a`. */
  lemma ClassifyTruncatesValue(name: string, value: string, more: string)
    requires !ContainsSep(name) && !ContainsSep(value)
    ensures Classify(name + ": " + value + ": " + more) == Field(name, value)
  {
    var rest := value + ": " + more;
    var line := name + ": " + rest;
    assert line == name + ": " + value + ": " + more;
    FindSepAfter(name, rest);
    assert line[..|name|] == name && line[|name| + 2..] == rest;
    FindSepAfter(value, more);
    assert rest[..|value|] == value;
  }

  /** `line` declares header `name`. */
  predicate Declares(line: string, name: string) {
    Classify(line).Field? && Classify(line).name == name
  }

  /** The `filter`/`map`/`collect::<HashMap<_, _>>()` chain over the lines
      after the first. Inserting in order means a later line with the same
      name overwrites an earlier one. Parsing fails exactly when some line
      has a colon but no `": "`. */
  function CollectHeaders(lines: seq<string>): (r: Result<map<string, string>, ParseError>)
    ensures r.Err? <==> exists i :: 0 <= i < |lines| && Classify(lines[i]).Malformed?
    ensures r.Err? ==> r.error == MalformedHeader
  {
    if lines == [] then Ok(map[])
    else
      var init, last := lines[..|lines| - 1], lines[|lines| - 1];
      assert forall i :: 0 <= i < |init| ==> init[i] == lines[i];
      match CollectHeaders(init)
      case Err(e) => Err(e)
      case Ok(m) =>
        match Classify(last)
        case NotHeader => Ok(m)
        case Malformed => Err(MalformedHeader)
        case Field(name, value) => Ok(m[name := value])
  }

  /** The map holds a name exactly when some line declares it, and then the
      value of the last line that declares it. */
  lemma {:induction false} CollectHeadersContents(lines: seq<string>, m: map<string, string>)
    requires CollectHeaders(lines) == Ok(m)
    ensures forall name :: name in m ==> exists i :: 0 <= i < |lines| && Declares(lines[i], name)
    ensures forall i, name :: 0 <= i < |lines| && Declares(lines[i], name)
                && (forall j :: i < j < |lines| ==> !Declares(lines[j], name))
                ==> name in m && m[name] == Classify(lines[i]).value
  {
    if lines != [] {
      var n := |lines| - 1;
      var init, last := lines[..n], lines[n];
      assert forall i :: 0 <= i < n ==> init[i] == lines[i];
      var m0 := CollectHeaders(init).value;
      CollectHeadersContents(init, m0);
      forall name | name in m ensures exists i :: 0 <= i < |lines| && Declares(lines[i], name) {
        if Declares(last, name) {
          assert Declares(lines[n], name);
        } else {
          assert name in m0;
          var i :| 0 <= i < n && Declares(init[i], name);
          assert Declares(lines[i], name);
        }
      }
      forall i, name | 0 <= i < |lines| && Declares(lines[i], name)
          && (forall j :: i < j < |lines| ==> !Declares(lines[j], name))
        ensures name in m && m[name] == Classify(lines[i]).value
      {
        if i < n {
          assert Declares(init[i], name);
          assert !Declares(last, name);
          forall j | i < j < n ensures !Declares(init[j], name) {
            assert init[j] == lines[j];
          }
        }
      }
    }
  }

  /** The verb and path of a well-formed request line, and what every later
      line must satisfy: the conditions under which `Request::new` returns. */
  predicate WellFormed(lines: seq<string>) {
    && |lines| > 0
    && |Tokens(lines[0])| >= 2
    && Tokens(lines[0])[0] == "GET"
    && forall i :: 1 <= i < |lines| ==> !Classify(lines[i]).Malformed?
  }

  /** `Request::new(request_lines)`. */
  function ParseRequest(lines: seq<string>): (r: Result<Request, ParseError>)
    ensures r.Ok? <==> WellFormed(lines)
    ensures r.Ok? ==> r.value.descriptor == Method(Tokens(lines[0])[1], GET)
  {
    if lines == [] then Err(NoRequestLine)
    else
      var requestLine := Tokens(lines[0]);
      if |requestLine| < 2 then Err(MalformedRequestLine)
      else
        match TryFromVerb(requestLine[0], requestLine[1])
        case Err(_) => Err(UnsupportedMethod)
        case Ok(descriptor) =>
          assert forall i :: 0 <= i < |lines| - 1 ==> lines[1..][i] == lines[i + 1];
          match CollectHeaders(lines[1..])
          case Err(e) => Err(e)
          case Ok(headers) => Ok(Request(descriptor, headers))
  }

  /** Which check fails, in the order `Request::new` makes them. */
  lemma ParseRequestErrors(lines: seq<string>)
    ensures lines == [] ==> ParseRequest(lines) == Err(NoRequestLine)
    ensures lines != [] && |Tokens(lines[0])| < 2 ==> ParseRequest(lines) == Err(MalformedRequestLine)
    ensures (lines != [] && |Tokens(lines[0])| >= 2 && Tokens(lines[0])[0] != "GET")
              ==> ParseRequest(lines) == Err(UnsupportedMethod)
    ensures (lines != [] && |Tokens(lines[0])| >= 2 && Tokens(lines[0])[0] == "GET"
             && exists i :: 1 <= i < |lines| && Classify(lines[i]).Malformed?)
              ==> ParseRequest(lines) == Err(MalformedHeader)
  {
  }

  /** The headers of a parsed request come from the lines after the first
      only: the request line never contributes one, even when it holds a
      colon. */
  lemma ParsedHeaderNames(lines: seq<string>)
    requires ParseRequest(lines).Ok?
    ensures var h := ParseRequest(lines).value.headers;
      forall name :: name in h ==> exists i :: 1 <= i < |lines| && Declares(lines[i], name)
  {
    var rest := lines[1..];
    var h := CollectHeaders(rest).value;
    CollectHeadersContents(rest, h);
    forall name | name in h ensures exists i :: 1 <= i < |lines| && Declares(lines[i], name) {
      var i :| 0 <= i < |rest| && Declares(rest[i], name);
      assert rest[i] == lines[i + 1];
    }
  }

  /** A name declared by a header line and by no later line is present,
      with the value of that line: the last declaration wins. */
  lemma LastDeclarationWins(lines: seq<string>, i: nat, name: string)
    requires ParseRequest(lines).Ok?
    requires 1 <= i < |lines| && Declares(lines[i], name)
    requires forall j :: i < j < |lines| ==> !Declares(lines[j], name)
    ensures var h := ParseRequest(lines).value.headers;
      name in h && h[name] == Classify(lines[i]).value
  {
    var rest := lines[1..];
    var h := CollectHeaders(rest).value;
    CollectHeadersContents(rest, h);
    assert Declares(rest[i - 1], name);
    forall j | i - 1 < j < |rest| ensures !Declares(rest[j], name) {
      assert rest[j] == lines[j + 1];
    }
  }

  /** A line without a colon, such as `garbage`, is skipped wherever it
      stands after the request line: it neither adds a header nor makes
      parsing fail. */
  lemma GarbageLineIgnored(lines: seq<string>, k: nat, garbage: string)
    requires ':' !in garbage
    requires 1 <= k <= |lines|
    ensures ParseRequest(lines[..k] + [garbage] + lines[k..]) == ParseRequest(lines)
  {
    var all := lines[..k] + [garbage] + lines[k..];
    assert all[0] == lines[0];
    assert all[1..] == lines[1..k] + [garbage] + lines[k..];
    assert lines[1..] == lines[1..k] + lines[k..];
    CollectHeadersSkips(lines[1..k], garbage, lines[k..]);
  }

  /** Collecting headers with a colon-free line inserted anywhere gives the
      same outcome as without it. */
  lemma {:induction false} CollectHeadersSkips(before: seq<string>, garbage: string, after: seq<string>)
    requires ':' !in garbage
    ensures CollectHeaders(before + [garbage] + after) == CollectHeaders(before + after)
    decreases |after|
  {
    if after == [] {
      var with := before + [garbage];
      assert before + [garbage] + after == with && before + after == before;
      assert with[..|with| - 1] == before && with[|with| - 1] == garbage;
      assert Classify(garbage).NotHeader?;
    } else {
      var init, last := after[..|after| - 1], after[|after| - 1];
      CollectHeadersSkips(before, garbage, init);
      var with, without := before + [garbage] + after, before + after;
      assert with[..|with| - 1] == before + [garbage] + init && with[|with| - 1] == last;
      assert without[..|without| - 1] == before + init && without[|without| - 1] == last;
    }
  }

  /** A request in the usual form `GET PATH VERSION` with header lines
      `Name: Value` parses, to that path. */
  lemma RequestTextParses(path: string, version: string, fields: seq<(string, string)>)
    requires IsToken(path)
    requires forall k :: 0 <= k < |fields| ==> !ContainsSep(fields[k].0) && !ContainsSep(fields[k].1)
    ensures ParseRequest(RequestText(path, version, fields)).Ok?
    ensures ParseRequest(RequestText(path, version, fields)).value.descriptor == Method(path, GET)
  {
    var lines := RequestText(path, version, fields);
    assert IsToken("GET");
    RequestLineTokens("GET", path, version);
    forall i | 1 <= i < |lines| ensures !Classify(lines[i]).Malformed? {
      assert Classify(lines[i]) == Field(fields[i - 1].0, fields[i - 1].1);
    }
    assert WellFormed(lines);
  }

  /** In such a request every declared name is present, with the value of
      its last declaration. */
  lemma RequestTextHeaders(path: string, version: string, fields: seq<(string, string)>, k: nat)
    requires IsToken(path)
    requires forall k :: 0 <= k < |fields| ==> !ContainsSep(fields[k].0) && !ContainsSep(fields[k].1)
    requires k < |fields| && forall j :: k < j < |fields| ==> fields[j].0 != fields[k].0
    ensures ParseRequest(RequestText(path, version, fields)).Ok?
    ensures var h := ParseRequest(RequestText(path, version, fields)).value.headers;
      fields[k].0 in h && h[fields[k].0] == fields[k].1
  {
    var lines := RequestText(path, version, fields);
    var name := fields[k].0;
    RequestTextParses(path, version, fields);
    assert Declares(lines[k + 1], name);
    forall j | k + 1 < j < |lines| ensures !Declares(lines[j], name) {
      assert Classify(lines[j]) == Field(fields[j - 1].0, fields[j - 1].1);
    }
    LastDeclarationWins(lines, k + 1, name);
  }

  /** The lines of a request `GET PATH VERSION` with the given header fields. */
  function RequestText(path: string, version: string, fields: seq<(string, string)>): (lines: seq<string>)
    requires forall k :: 0 <= k < |fields| ==> !ContainsSep(fields[k].0) && !ContainsSep(fields[k].1)
    ensures |lines| == |fields| + 1
    ensures lines[0] == "GET" + [' '] + path + [' '] + version
    ensures forall k :: 0 <= k < |fields| ==> Classify(lines[k + 1]) == Field(fields[k].0, fields[k].1)
  {
    var lines := ["GET" + [' '] + path + [' '] + version] + FieldLines(fields);
    forall k | 0 <= k < |fields| ensures Classify(lines[k + 1]) == Field(fields[k].0, fields[k].1) {
      ClassifyField(fields[k].0, fields[k].1);
    }
    lines
  }

  /** The header lines `Name: Value` for a list of fields. */
  function FieldLines(fields: seq<(string, string)>): (lines: seq<string>)
    ensures |lines| == |fields|
    ensures forall k :: 0 <= k < |fields| ==> lines[k] == fields[k].0 + ": " + fields[k].1
  {
    seq(|fields|, k requires 0 <= k < |fields| => fields[k].0 + ": " + fields[k].1)
  }
}
