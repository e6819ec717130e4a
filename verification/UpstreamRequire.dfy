/** Subscription entries of an upstream: the text form an operator writes and the entry it
    stands for, with the printer that goes back. */
module UpstreamRequire {
  import opened Options
  import opened Text

  datatype Require = Require(kind: string, pattern: string, floor: Option<string>)

  datatype Result = Ok(value: Require) | EmptyRegex(spec: string) | EmptyMatch(spec: string)

  /** The matcher and the version floor of a trimmed entry. */
  function Split(spec: string): (string, Option<string>) {
    match SplitOnce(spec, '@')
    case Some((m, f)) =>
      if Trim(f) != "" then (Trim(m), Some(Trim(f))) else (Trim(TrimEndChar(spec, '@')), None)
    case None => (Trim(TrimEndChar(spec, '@')), None)
  }

  function Classify(spec: string, matcher: string, floor: Option<string>): Result {
    if matcher == "*" then Ok(Require("all", "", floor))
    else match StripPrefix(matcher, "re:")
      case Some(re) => if re == "" then EmptyRegex(spec) else Ok(Require("regex", re, floor))
      case None =>
        if matcher == "" then EmptyMatch(spec)
        else match StripSuffix(matcher, "*")
          case Some(stem) => Ok(Require("prefix", stem, floor))
          case None =>
            if matcher[|matcher| - 1] == '/' then Ok(Require("prefix", matcher, floor))
            else Ok(Require("exact", matcher, floor))
  }

  function Parse(text: string): Result {
    var spec := Trim(text);
    Classify(spec, Split(spec).0, Split(spec).1)
  }

  function EndsWithSlash(p: string): bool { p != "" && p[|p| - 1] == '/' }

  function Matcher(r: Require): string {
    if r.kind == "all" then "*"
    else if r.kind == "regex" then "re:" + r.pattern
    else if r.kind == "prefix" && !EndsWithSlash(r.pattern) then r.pattern + "*"
    else r.pattern
  }

  function ToSpec(r: Require): string {
    match r.floor
    case Some(f) => Matcher(r) + "@" + f
    case None => Matcher(r)
  }

  // ----- the entries there are -----

  /** A matcher as it stands between white space and the floor. */
  predicate PlainMatcher(m: string) { m != "" && Trimmed(m) && '@' !in m }

  predicate PlainFloor(floor: Option<string>) { floor.None? || (floor.value != "" && Trimmed(floor.value)) }

  /** Exactly the entries that some text stands for. */
  predicate Canonical(r: Require) {
    && PlainMatcher(Matcher(r)) && PlainFloor(r.floor)
    && (|| (r.kind == "all" && r.pattern == "")
        || (r.kind == "regex" && r.pattern != "")
        || (r.kind == "prefix" && r.pattern != "" && !("re:" <= r.pattern))
        || (r.kind == "exact" && !("re:" <= r.pattern) && r.pattern[|r.pattern| - 1] != '*'
          && !EndsWithSlash(r.pattern)))
  }

  lemma SplitIsPlain(spec: string)
    requires Trimmed(spec)
    ensures var (m, floor) := Split(spec); Trimmed(m) && '@' !in m && PlainFloor(floor)
  {
    SplitOnceMeans(spec, '@');
    match SplitOnce(spec, '@')
    case Some((m, f)) =>
      TrimIsTrimmed(f);
      TrimIsTrimmed(m);
      TrimIsTrimmed(TrimEndChar(spec, '@'));
      TrimIsPart(m);
      if Trim(f) == "" { OnlyAtEnd(spec, m, f); }
    case None =>
      TrimIsTrimmed(TrimEndChar(spec, '@'));
      TrimIsPart(TrimEndChar(spec, '@'));
  }

  lemma TrimIsPart(s: string)
    ensures forall c :: c in Trim(s) ==> c in s
  {
  }

  lemma InkSurvives(s: string)
    requires s != "" && !White(s[|s| - 1])
    ensures Trim(s) != ""
  {
    LastSurvives(s);
    assert TrimEnd(TrimStart(s)) == TrimStart(s);
  }

  lemma {:induction false} LastSurvives(s: string)
    requires s != "" && !White(s[|s| - 1])
    ensures TrimStart(s) != "" && TrimStart(s)[|TrimStart(s)| - 1] == s[|s| - 1]
    decreases |s|
  {
    if White(s[0]) { LastSurvives(s[1..]); }
  }

  /** A trimmed entry whose floor is blank has its only '@' at the end. */
  lemma OnlyAtEnd(spec: string, m: string, f: string)
    requires Trimmed(spec) && spec == m + ['@'] + f && '@' !in m && Trim(f) == ""
    ensures f == "" && '@' !in Trim(TrimEndChar(spec, '@'))
  {
    hide White, Trim;
    BlankFloor(spec, m, f);
    assert spec[..|spec| - 1] == m && spec[|spec| - 1] == '@';
    NoCharToTrim(m, '@');
    assert TrimEndChar(spec, '@') == m;
    TrimIsPart(m);
  }

  lemma BlankFloor(spec: string, m: string, f: string)
    requires Trimmed(spec) && spec == m + ['@'] + f && Trim(f) == ""
    ensures f == ""
  {
    hide White, Trim;
    if f != "" {
      assert spec[|spec| - 1] == f[|f| - 1];
      InkSurvives(f);
    }
  }

  lemma NoCharToTrim(m: string, c: char)
    requires c !in m
    ensures TrimEndChar(m, c) == m
  {
  }

  lemma ClassifiedIsCanonical(spec: string, m: string, floor: Option<string>)
    requires Trimmed(m) && '@' !in m && PlainFloor(floor) && Classify(spec, m, floor).Ok?
    ensures Canonical(Classify(spec, m, floor).value)
  {
    if m == "*" {
      ClassifyAll(spec, floor);
      SlashIsInk();
    } else if "re:" <= m {
      RegexClassified(spec, m, floor);
    } else if m != "" && m[|m| - 1] == '*' {
      StarClassified(spec, m, floor);
    } else {
      NotEmptyClassified(spec, floor);
      hide White, Classify;
      ClassifyPlain(spec, m, floor);
    }
  }

  lemma NotEmptyClassified(spec: string, floor: Option<string>)
    ensures !Classify(spec, "", floor).Ok?
  {
  }

  lemma RegexClassified(spec: string, m: string, floor: Option<string>)
    requires Trimmed(m) && '@' !in m && PlainFloor(floor) && "re:" <= m && Classify(spec, m, floor).Ok?
    ensures Canonical(Classify(spec, m, floor).value)
  {
    hide White, Trimmed;
    assert m == "re:" + m[3..];
    assert Classify(spec, m, floor).value == Require("regex", m[3..], floor);
  }

  lemma StarClassified(spec: string, m: string, floor: Option<string>)
    requires Trimmed(m) && '@' !in m && PlainFloor(floor) && |m| > 1 && m[|m| - 1] == '*' && !("re:" <= m)
    ensures Canonical(Classify(spec, m, floor).value)
  {
    var stem := m[..|m| - 1];
    assert m == stem + "*";
    assert "re:" <= stem ==> "re:" <= m;
    hide White, Trimmed, Classify, Canonical, PlainFloor;
    ClassifyStem(spec, stem, floor);
    StarIsCanonical(stem, floor);
  }

  lemma StarIsCanonical(stem: string, floor: Option<string>)
    requires stem != "" && Trimmed(stem + "*") && '@' !in stem && PlainFloor(floor) && !("re:" <= stem + "*")
    ensures Canonical(Require("prefix", stem, floor))
  {
    hide White;
    SlashIsInk();
    var m := stem + "*";
    assert m[0] == stem[0];
    assert "re:" <= stem ==> "re:" <= m;
  }

  lemma SlashIsInk()
    ensures !White('/') && !White('*')
  {
  }

  lemma ParseIsCanonical(text: string)
    requires Parse(text).Ok?
    ensures Canonical(Parse(text).value)
  {
    var spec := Trim(text);
    TrimIsTrimmed(text);
    SplitIsPlain(spec);
    hide Trim, Split, Canonical, Classify;
    ClassifiedIsCanonical(spec, Split(spec).0, Split(spec).1);
  }

  lemma ClassifyRegex(spec: string, pattern: string, floor: Option<string>)
    requires pattern != ""
    ensures Classify(spec, "re:" + pattern, floor) == Ok(Require("regex", pattern, floor))
  {
    var m := "re:" + pattern;
    assert m[3..] == pattern && m[0] == 'r' && "re:" <= m;
  }

  lemma ClassifyStem(spec: string, stem: string, floor: Option<string>)
    requires stem != "" && !("re:" <= stem)
    ensures Classify(spec, stem + "*", floor) == Ok(Require("prefix", stem, floor))
  {
    var m := stem + "*";
    assert m[|m| - 1..] == "*" && m[..|m| - 1] == stem;
    assert |m| > 1;
    assert forall i :: 0 <= i < |stem| ==> m[i] == stem[i];
    assert m[|stem|] == '*';
  }

  /** A matcher with no star at its end. */
  lemma ClassifyPlain(spec: string, m: string, floor: Option<string>)
    requires m != "" && !("re:" <= m) && m[|m| - 1] != '*'
    ensures Classify(spec, m, floor) == Ok(Require(if EndsWithSlash(m) then "prefix" else "exact", m, floor))
  {
    assert m[|m| - 1..][0] != "*"[0];
  }

  lemma ClassifyMatcher(spec: string, r: Require)
    requires Canonical(r)
    ensures Classify(spec, Matcher(r), r.floor) == Ok(r)
  {
    hide Classify, Trimmed, PlainFloor;
    if r.kind == "all" {
      ClassifyAll(spec, r.floor);
    } else if r.kind == "regex" {
      ClassifyRegex(spec, r.pattern, r.floor);
    } else if r.kind == "prefix" && !EndsWithSlash(r.pattern) {
      ClassifyStem(spec, r.pattern, r.floor);
    } else {
      ClassifyPlain(spec, r.pattern, r.floor);
    }
  }

  lemma ClassifyAll(spec: string, floor: Option<string>)
    ensures Classify(spec, "*", floor) == Ok(Require("all", "", floor))
  {
  }

  lemma WithFloorTrimmed(m: string, f: string)
    requires m != "" && Trimmed(m) && f != "" && Trimmed(f)
    ensures Trim(m + "@" + f) == m + "@" + f
  {
    hide White, Trim;
    var spec := m + "@" + f;
    assert spec[0] == m[0] && spec[|spec| - 1] == f[|f| - 1];
    TrimKeepsIffTrimmed(spec);
  }

  lemma SplitWithFloor(m: string, f: string)
    requires PlainMatcher(m) && f != "" && Trimmed(f)
    ensures Split(m + "@" + f) == (m, Some(f))
  {
    TrimKeepsIffTrimmed(m);
    TrimKeepsIffTrimmed(f);
    hide White, Trim, Trimmed, SplitOnce;
    assert m + "@" + f == m + ['@'] + f;
    SplitOnceAt(m, '@', f);
  }

  lemma SplitWithoutFloor(m: string)
    requires PlainMatcher(m)
    ensures Trim(m) == m && Split(m) == (m, None)
  {
    TrimKeepsIffTrimmed(m);
    hide White, Trim, Trimmed, SplitOnce, TrimEndChar;
    SplitOnceMeans(m, '@');
    NoCharToTrim(m, '@');
  }

  lemma SplitSpec(r: Require)
    requires PlainMatcher(Matcher(r)) && PlainFloor(r.floor)
    ensures Trim(ToSpec(r)) == ToSpec(r) && Split(ToSpec(r)) == (Matcher(r), r.floor)
  {
    hide White, Trim, Trimmed, Split, Matcher;
    match r.floor
    case Some(f) =>
      WithFloorTrimmed(Matcher(r), f);
      SplitWithFloor(Matcher(r), f);
    case None =>
      SplitWithoutFloor(Matcher(r));
  }

  /** Printing and parsing: an entry survives the trip exactly when it is canonical. */
  lemma RoundTripIff(r: Require)
    ensures Parse(ToSpec(r)) == Ok(r) <==> Canonical(r)
  {
    if Canonical(r) {
      SplitSpec(r);
      ClassifyMatcher(ToSpec(r), r);
    }
    hide Canonical, Split, Classify, ToSpec, Trim;
    if Parse(ToSpec(r)) == Ok(r) { ParseIsCanonical(ToSpec(r)); }
  }

  /** The inverse: whatever a text parses to, its printed form parses to again. */
  lemma ParsePrintParse(text: string)
    requires Parse(text).Ok?
    ensures Parse(ToSpec(Parse(text).value)) == Parse(text)
  {
    hide Parse, Canonical, ToSpec;
    ParseIsCanonical(text);
    RoundTripIff(Parse(text).value);
  }
}
