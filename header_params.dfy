/**
 * The header-parameter extractor of the email view: the regular expression
 *
 *     ([a-zA-Z0-9]+)=["']?([^"';=]+)["']?[;]?
 *
 * applied with `findall`, whose list of (name, value) pairs is turned into a
 * dictionary with `dict`. The expression is written out here as a scanner:
 * `MatchAt` is the match anchored at the start of a string, `FindAll` the
 * left-to-right scan that, like `findall`, resumes after each match and moves
 * on by one character where nothing matches, and `ToDict` the dictionary in
 * which a later pair replaces an earlier one with the same name.
 */
module HeaderParams {
  import opened Wrappers

  /** `[a-zA-Z0-9]`: the characters of a parameter name (ASCII letters and digits only). */
  predicate IsKeyChar(c: char) {
    ('a' <= c <= 'z') || ('A' <= c <= 'Z') || ('0' <= c <= '9')
  }

  /** `["']`: the optional quotes around a value. */
  predicate IsQuote(c: char) {
    c == '"' || c == '\''
  }

  /** `[^"';=]`: the characters of a parameter value. */
  predicate IsValueChar(c: char) {
    !IsQuote(c) && c != ';' && c != '='
  }

  /** The length of the longest prefix of `s` whose characters are all in the class. */
  function Span(s: string, inClass: char -> bool): (n: nat)
    ensures n <= |s|
    ensures forall i :: 0 <= i < n ==> inClass(s[i])
    ensures n < |s| ==> !inClass(s[n])
  {
    if |s| > 0 && inClass(s[0]) then 1 + Span(s[1..], inClass) else 0
  }

  /**
   * One match of the expression: the two groups, and which of the optional
   * opening quote, closing quote and `;` it consumed.
   */
  datatype ParamMatch = ParamMatch(key: string, value: string, openQuote: bool, closeQuote: bool, semicolon: bool)
  {
    function ValueStart(): nat { |key| + 1 + (if openQuote then 1 else 0) }
    function ValueEnd(): nat { ValueStart() + |value| }
    function Length(): nat { ValueEnd() + (if closeQuote then 1 else 0) + (if semicolon then 1 else 0) }
  }

  /** `m` is a way for the expression to match a prefix of `s` (not necessarily the one the regex engine picks). */
  predicate Matches(s: string, m: ParamMatch) {
    && m.Length() <= |s|
    && |m.key| > 0
    && m.key == s[..|m.key|]
    && (forall i :: 0 <= i < |m.key| ==> IsKeyChar(m.key[i]))
    && s[|m.key|] == '='
    && (m.openQuote ==> IsQuote(s[|m.key| + 1]))
    && |m.value| > 0
    && m.value == s[m.ValueStart()..m.ValueEnd()]
    && (forall i :: 0 <= i < |m.value| ==> IsValueChar(m.value[i]))
    && (m.closeQuote ==> IsQuote(s[m.ValueEnd()]))
    && (m.semicolon ==> s[m.ValueEnd() + (if m.closeQuote then 1 else 0)] == ';')
  }

  /**
   * The match of the expression anchored at the start of `s`, as the
   * backtracking engine finds it: the longest name, the opening quote if the
   * value can follow it, the longest value, then the closing quote and the
   * `;` when present. `MatchAtLongest` shows this is the unique longest match.
   */
  function MatchAt(s: string): (r: Option<ParamMatch>)
    ensures r.Some? ==> Matches(s, r.value)
  {
    var k := Span(s, IsKeyChar);
    if k == 0 || k == |s| || s[k] != '=' then None
    else
      var open := k + 1 < |s| && IsQuote(s[k + 1]);
      var start := if open then k + 2 else k + 1;
      var v := Span(s[start..], IsValueChar);
      // Without the opening quote the value would have to start with a quote: no match either way.
      if v == 0 then None
      else
        var end := start + v;
        var close := end < |s| && IsQuote(s[end]);
        var afterClose := if close then end + 1 else end;
        var semi := afterClose < |s| && s[afterClose] == ';';
        MatchFrom(s, k, open, start, end, close, semi);
        Some(ParamMatch(s[..k], s[start..end], open, close, semi))
  }

  /** The pieces `MatchAt` finds, read at the positions where it finds them, make up a match. */
  lemma MatchFrom(s: string, k: nat, open: bool, start: nat, end: nat, close: bool, semi: bool)
    requires 0 < k < |s| && s[k] == '='
    requires forall i :: 0 <= i < k ==> IsKeyChar(s[i])
    requires open ==> k + 1 < |s| && IsQuote(s[k + 1])
    requires start == k + 1 + (if open then 1 else 0)
    requires start < end <= |s|
    requires forall i :: 0 <= i < end - start ==> IsValueChar(s[start..][i])
    requires close ==> end < |s| && IsQuote(s[end])
    requires semi ==> end + (if close then 1 else 0) < |s| && s[end + (if close then 1 else 0)] == ';'
    ensures Matches(s, ParamMatch(s[..k], s[start..end], open, close, semi))
  {
    var m := ParamMatch(s[..k], s[start..end], open, close, semi);
    assert m.ValueStart() == start && m.ValueEnd() == end;
    assert forall i :: 0 <= i < |m.key| ==> m.key[i] == s[i];
    assert forall i :: 0 <= i < |m.value| ==> m.value[i] == s[start..][i];
  }

  /** The optional closing quote and `;` are taken whenever they are there. */
  lemma MatchAtGreedy(s: string)
    requires MatchAt(s).Some?
    ensures var r := MatchAt(s).value;
            r.closeQuote <==> r.ValueEnd() < |s| && IsQuote(s[r.ValueEnd()])
    ensures var r := MatchAt(s).value;
            var after := r.ValueEnd() + (if r.closeQuote then 1 else 0);
            r.semicolon <==> after < |s| && s[after] == ';'
  {
  }

  /** Every match of the pattern starts with the name `MatchAt` found and its choice of opening quote. */
  lemma MatchAtSameStart(s: string, m: ParamMatch)
    requires Matches(s, m)
    ensures MatchAt(s).Some?
    ensures MatchAt(s).value.key == m.key && MatchAt(s).value.openQuote == m.openQuote
    ensures |m.value| <= |MatchAt(s).value.value|
    ensures |m.value| < |MatchAt(s).value.value| ==> IsValueChar(s[m.ValueEnd()])
  {
    MatchKeySpan(s, m);
    MatchOpenQuote(s, m);
    MatchValueSpan(s, m);
  }

  /** The name of any match is the whole run of name characters at the start. */
  lemma MatchKeySpan(s: string, m: ParamMatch)
    requires Matches(s, m)
    ensures Span(s, IsKeyChar) == |m.key|
  {
    var kl := |m.key|;
    assert forall i :: 0 <= i < kl ==> s[i] == m.key[i];
    assert !IsKeyChar(s[kl]);
  }

  /** Any match takes the opening quote exactly when one follows the `=`. */
  lemma MatchOpenQuote(s: string, m: ParamMatch)
    requires Matches(s, m)
    ensures (|m.key| + 1 < |s| && IsQuote(s[|m.key| + 1])) == m.openQuote
  {
    if !m.openQuote {
      assert s[|m.key| + 1] == m.value[0];
    }
  }

  /** The value of any match is a prefix of the run of value characters after its opening quote. */
  lemma MatchValueSpan(s: string, m: ParamMatch)
    requires Matches(s, m)
    ensures |m.value| <= Span(s[m.ValueStart()..], IsValueChar)
    ensures |m.value| < Span(s[m.ValueStart()..], IsValueChar) ==> IsValueChar(s[m.ValueEnd()])
  {
    var rest := s[m.ValueStart()..];
    var v := Span(rest, IsValueChar);
    assert forall i :: 0 <= i < |m.value| ==> rest[i] == m.value[i];
    if |m.value| < v {
      assert rest[|m.value|] == s[m.ValueEnd()];
    }
  }

  /** `MatchAt` is the unique longest match: any other way to match is strictly shorter. */
  lemma MatchAtLongest(s: string, m: ParamMatch)
    requires Matches(s, m)
    ensures MatchAt(s).Some?
    ensures MatchAt(s).value == m || m.Length() < MatchAt(s).value.Length()
  {
    MatchAtSameStart(s, m);
    MatchAtGreedy(s);
    GreedyIsLongest(s, MatchAt(s).value, m);
  }

  /**
   * A match `r` that takes its closing quote and `;` whenever they are there
   * is at least as long as any match `m` with the same name and opening quote
   * and a value no longer than its own, and strictly longer unless the two
   * are the same.
   */
  lemma GreedyIsLongest(s: string, r: ParamMatch, m: ParamMatch)
    requires Matches(s, r) && Matches(s, m)
    requires r.key == m.key && r.openQuote == m.openQuote
    requires |m.value| <= |r.value|
    requires |m.value| < |r.value| ==> IsValueChar(s[m.ValueEnd()])
    requires r.closeQuote <==> r.ValueEnd() < |s| && IsQuote(s[r.ValueEnd()])
    requires r.semicolon <==> r.ValueEnd() + (if r.closeQuote then 1 else 0) < |s| &&
                              s[r.ValueEnd() + (if r.closeQuote then 1 else 0)] == ';'
    ensures r == m || m.Length() < r.Length()
  {
    var e := m.ValueEnd();
    if |m.value| == |r.value| {
      // Same value: `m` can only have skipped an optional quote or `;` that `r` took.
      assert r.value == m.value;
      assert r.ValueEnd() == e;
      if m.closeQuote {
        assert r.closeQuote;
      } else if r.closeQuote {
        assert !m.semicolon;
      }
    } else {
      // A shorter value is followed by a value character: neither a quote nor `;`.
      assert IsValueChar(s[e]);
      assert m.Length() == e;
    }
  }

  /** A match that ends with its `;` is exactly the one `MatchAt` finds. */
  lemma MatchAtTerminated(s: string, m: ParamMatch)
    requires Matches(s, m) && m.semicolon
    ensures MatchAt(s) == Some(m)
  {
    MatchAtSameStart(s, m);
    MatchAtLongest(s, m);
    var r := MatchAt(s).value;
    var e := m.ValueEnd();
    // What follows the value is a closing quote or the `;`, so the engine's value ends there too.
    assert !IsValueChar(s[e]);
    assert |r.value| == |m.value|;
    assert r.ValueEnd() == e;
    // Then the engine's match can be longer only by a closing quote, which `m` would have taken.
    assert r.closeQuote ==> m.closeQuote;
    assert r.Length() <= m.Length();
  }

  /** A (name, value) pair the expression can produce: both groups non-empty and within their classes. */
  predicate IsParam(p: (string, string)) {
    && |p.0| > 0 && (forall i :: 0 <= i < |p.0| ==> IsKeyChar(p.0[i]))
    && |p.1| > 0 && (forall i :: 0 <= i < |p.1| ==> IsValueChar(p.1[i]))
  }

  /** `HEADER_PARAMS.findall(s)`: the groups of every non-overlapping match, left to right. */
  function FindAll(s: string): (pairs: seq<(string, string)>)
    ensures forall i :: 0 <= i < |pairs| ==> IsParam(pairs[i])
    decreases |s|
  {
    if |s| == 0 then []
    else
      match MatchAt(s)
      case Some(m) => [(m.key, m.value)] + FindAll(s[m.Length()..])
      case None => FindAll(s[1..])
  }

  /** A character that cannot start a name is skipped: unmatched text never stops the scan. */
  lemma {:induction false} FindAllSkips(c: char, s: string)
    requires !IsKeyChar(c)
    ensures FindAll([c] + s) == FindAll(s)
  {
    assert ([c] + s)[1..] == s;
    assert Span([c] + s, IsKeyChar) == 0;
  }

  /** A string without `=` holds no parameters. */
  lemma {:induction false} FindAllNeedsEquals(s: string)
    requires '=' !in s
    ensures FindAll(s) == []
  {
    if |s| > 0 {
      assert forall c :: c in s[1..] ==> c in s;
      FindAllNeedsEquals(s[1..]);
    }
  }

  /** A run of spaces: what follows the `;` of a Content-Type before its parameters, and separates them. */
  function Spaces(n: nat): string {
    if n == 0 then "" else " " + Spaces(n - 1)
  }

  /** Leading spaces never start a match: the scan reads past them. */
  lemma {:induction false} FindAllSpaces(n: nat, s: string)
    ensures FindAll(Spaces(n) + s) == FindAll(s)
  {
    if n == 0 {
      SpacesCons(n, s);
    } else {
      FindAllSpace(n, s);
      FindAllSpaces(n - 1, s);
    }
  }

  /** One space of the indentation is skipped. */
  lemma FindAllSpace(n: nat, s: string)
    requires n > 0
    ensures FindAll(Spaces(n) + s) == FindAll(Spaces(n - 1) + s)
  {
    SpacesCons(n, s);
    FindAllSkips(' ', Spaces(n - 1) + s);
  }

  /** A run of spaces in front of a string is one space in front of the shorter run. */
  lemma SpacesCons(n: nat, s: string)
    ensures n == 0 ==> Spaces(n) + s == s
    ensures n > 0 ==> Spaces(n) + s == [' '] + (Spaces(n - 1) + s)
  {
    if n > 0 {
      assert Spaces(n) == [' '] + Spaces(n - 1);
    }
  }

  /**
   * A parameter as a mail client writes it: indented by some spaces, then
   * `name=value` or `name="value"`, then `;` unless it is the last one.
   */
  datatype Param = Param(indent: nat, name: string, value: string, quoted: bool, terminated: bool)

  predicate ValidParam(p: Param) {
    IsParam((p.name, p.value))
  }

  /** The parameter without its indentation. */
  function FormatBare(p: Param): string {
    var q := if p.quoted then "\"" else "";
    p.name + "=" + q + p.value + q + (if p.terminated then ";" else "")
  }

  function FormatParam(p: Param): string {
    Spaces(p.indent) + FormatBare(p)
  }

  function Format(ps: seq<Param>): string {
    if |ps| == 0 then "" else FormatParam(ps[0]) + Format(ps[1..])
  }

  /** Only the last parameter may leave out its `;`. */
  predicate WellSeparated(ps: seq<Param>) {
    forall i :: 0 <= i < |ps| - 1 ==> ps[i].terminated
  }

  function Pairs(ps: seq<Param>): seq<(string, string)> {
    if |ps| == 0 then [] else [(ps[0].name, ps[0].value)] + Pairs(ps[1..])
  }

  /** The match that reads an unindented parameter: the whole parameter, `;` included when present. */
  lemma BareMatches(p: Param, rest: string)
    requires ValidParam(p)
    ensures var m := ParamMatch(p.name, p.value, p.quoted, p.quoted, p.terminated);
            Matches(FormatBare(p) + rest, m) && m.Length() == |FormatBare(p)|
  {
    var s := FormatBare(p) + rest;
    var m := ParamMatch(p.name, p.value, p.quoted, p.quoted, p.terminated);
    var q := if p.quoted then "\"" else "";
    var semi := if p.terminated then ";" else "";
    assert s == p.name + "=" + q + p.value + q + semi + rest;
    assert s[..|p.name|] == p.name;
    assert s[|p.name|] == '=';
    assert s[m.ValueStart()..m.ValueEnd()] == p.value;
    assert p.quoted ==> s[|p.name| + 1] == '"' && s[m.ValueEnd()] == '"';
    assert p.terminated ==> s[m.ValueEnd() + (if p.quoted then 1 else 0)] == ';';
  }

  /**
   * One formatted parameter is read back as its own pair, and the scan
   * resumes right after it; a parameter without `;` must be the last.
   */
  lemma FindAllFormatParam(p: Param, rest: string)
    requires ValidParam(p)
    requires p.terminated || rest == ""
    ensures FindAll(FormatParam(p) + rest) == [(p.name, p.value)] + FindAll(rest)
  {
    var body := FormatBare(p) + rest;
    assert FormatParam(p) + rest == Spaces(p.indent) + body;
    FindAllSpaces(p.indent, body);
    var m := ParamMatch(p.name, p.value, p.quoted, p.quoted, p.terminated);
    BareMatches(p, rest);
    if p.terminated {
      MatchAtTerminated(body, m);
    } else {
      // The parameter runs to the end of the string: no match can be longer.
      MatchAtLongest(body, m);
      assert m.Length() == |body|;
    }
    assert MatchAt(body) == Some(m);
    assert body[m.Length()..] == rest;
  }

  /**
   * Round trip: scanning well-formed parameters, indented and with or without
   * a final `;`, gives back exactly their names and values, in order.
   */
  lemma {:induction false} FindAllFormat(ps: seq<Param>)
    requires forall i :: 0 <= i < |ps| ==> ValidParam(ps[i])
    requires WellSeparated(ps)
    ensures FindAll(Format(ps)) == Pairs(ps)
  {
    if |ps| > 0 {
      FindAllFormatParam(ps[0], Format(ps[1..]));
      FindAllFormat(ps[1..]);
    }
  }

  /** `dict(pairs)`: every name of the list is a key, mapped to a value it was paired with. */
  function ToDict(pairs: seq<(string, string)>): (d: map<string, string>)
    ensures forall k :: k in d <==> exists i :: 0 <= i < |pairs| && pairs[i].0 == k
    ensures forall k :: k in d ==> exists i :: 0 <= i < |pairs| && pairs[i] == (k, d[k])
  {
    if |pairs| == 0 then map[]
    else
      var last := pairs[|pairs| - 1];
      var init := pairs[..|pairs| - 1];
      assert forall i :: 0 <= i < |init| ==> init[i] == pairs[i];
      ToDict(init)[last.0 := last.1]
  }

  /** When a name repeats, the later pair wins: a pair with no later pair of the same name gives the value. */
  lemma {:induction false} ToDictLastWins(pairs: seq<(string, string)>, i: nat)
    requires i < |pairs|
    requires forall j :: i < j < |pairs| ==> pairs[j].0 != pairs[i].0
    ensures pairs[i].0 in ToDict(pairs) && ToDict(pairs)[pairs[i].0] == pairs[i].1
  {
    if i < |pairs| - 1 {
      var init := pairs[..|pairs| - 1];
      assert init[i] == pairs[i];
      ToDictLastWins(init, i);
    }
  }

  /** `dict(HEADER_PARAMS.findall(s))`: never fails; every entry is a pair the expression can produce. */
  function Params(s: string): (d: map<string, string>)
    ensures forall k :: k in d ==> IsParam((k, d[k]))
  {
    ToDict(FindAll(s))
  }
}
