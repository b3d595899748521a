/**
  The four PCRE patterns of AutogeneratedClassNotInConstructorFinder, written out as
  predicates on positions of the file content instead of run through a regex engine.

  - the call-site pattern `/(get|create)\(\s*([a-z0-9\\]+)::class\s*\)/im`, scanned
    left to right for non-overlapping matches as `preg_match_all` does;
  - the three `use`-statement patterns, each anchored with `^` and `$` in multi-line
    mode, of which only the first match (the leftmost start position) is used.

  In the call-site pattern, and before ` as ` in the alias pattern, every repetition is
  followed by a character outside the class it repeats, so a greedy run (SpanEnd) decides
  where it ends. In the other two `use` patterns the run `[a-z0-9\\]+` is followed by the
  short name or partial namespace, whose characters are inside that class; since `;` and
  the end of the line must come next, backtracking can only place that literal at the end
  of the name run, just before `;`, which is where UseClause looks for it. Either way, at
  each start position there is at most one match, and these functions compute it.
 */
module Patterns {
  import opened Wrappers
  import opened PhpText

  datatype CharClass = Space | Name

  predicate InClass(c: char, cls: CharClass) {
    match cls
    case Space => IsSpace(c)
    case Name => IsNameChar(c)
  }

  /** End of the longest run of `cls` characters starting at `i`: where a greedy `\s*` or `[a-z0-9\\]+` stops. */
  function SpanEnd(text: string, i: nat, cls: CharClass): (e: nat)
    requires i <= |text|
    ensures i <= e <= |text|
    ensures forall k :: i <= k < e ==> InClass(text[k], cls)
    ensures e < |text| ==> !InClass(text[e], cls)
    decreases |text| - i
  {
    if i < |text| && InClass(text[i], cls) then SpanEnd(text, i + 1, cls) else i
  }

  // ---------------------------------------------------------------------------
  // The call-site pattern
  // ---------------------------------------------------------------------------

  /** One match of the call-site pattern: capture group 2 and the position just after the match. */
  datatype CallSite = CallSite(shortName: string, end: nat)

  /** Where `(get|create)` ends when it matches at `i`. */
  function KeywordEnd(text: string, i: nat): Option<nat> {
    if CiPrefixAt(text, i, "get") then Some(i + 3)
    else if CiPrefixAt(text, i, "create") then Some(i + 6)
    else None
  }

  /** The call-site pattern matched at exactly position `i`, if it matches there. */
  function CallAt(text: string, i: nat): (m: Option<CallSite>)
    requires i <= |text|
    ensures m.Some? ==> i < m.value.end <= |text| && IsName(m.value.shortName)
  {
    match KeywordEnd(text, i)
    case None => None
    case Some(p) => if p < |text| && text[p] == '(' then ClassArgument(text, p + 1) else None
  }

  /** The rest of the pattern after `(`: `\s*([a-z0-9\\]+)::class\s*\)` matched at exactly position `j`. */
  function ClassArgument(text: string, j: nat): (m: Option<CallSite>)
    requires j <= |text|
    ensures m.Some? ==> j < m.value.end <= |text| && IsName(m.value.shortName)
  {
    var q := SpanEnd(text, j, Space);
    var e := SpanEnd(text, q, Name);
    if q < e && CiPrefixAt(text, e, "::class") then
      var t := SpanEnd(text, e + 7, Space);
      if t < |text| && text[t] == ')' then Some(CallSite(text[q..e], t + 1)) else None
    else None
  }

  /** The call-site pattern tried at every start position of the text. */
  function MatchTable(text: string): (table: seq<Option<CallSite>>) {
    seq(|text|, i requires 0 <= i < |text| => CallAt(text, i))
  }

  /** Every match in the table ends after its start, within the text, and captures a name. */
  predicate ValidTable(table: seq<Option<CallSite>>) {
    forall i :: 0 <= i < |table| && table[i].Some? ==>
      i < table[i].value.end <= |table| && IsName(table[i].value.shortName)
  }

  lemma MatchTableValid(text: string)
    ensures ValidTable(MatchTable(text))
  {
  }

  /** `preg_match_all` from position `from`: the leftmost match, then the search resumes where it ended. */
  function Scan(table: seq<Option<CallSite>>, from: nat): (names: seq<string>)
    requires ValidTable(table) && from <= |table|
    ensures forall k :: 0 <= k < |names| ==> IsName(names[k])
    decreases |table| - from
  {
    if from == |table| then []
    else match table[from]
      case Some(m) => [m.shortName] + Scan(table, m.end)
      case None => Scan(table, from + 1)
  }

  /** `$shortNameMatches[2]`: the class references of all call sites, in text order. */
  function CallSiteNames(fileContent: string): (names: seq<string>)
    ensures forall k :: 0 <= k < |names| ==> IsName(names[k])
  {
    MatchTableValid(fileContent);
    Scan(MatchTable(fileContent), 0)
  }

  /** The scan reports nothing exactly when the pattern matches at no position. */
  lemma {:induction false} ScanEmpty(table: seq<Option<CallSite>>, from: nat)
    requires ValidTable(table) && from <= |table|
    ensures Scan(table, from) == [] <==> forall i :: from <= i < |table| ==> table[i].None?
    decreases |table| - from
  {
    if from < |table| && table[from].None? {
      ScanEmpty(table, from + 1);
    }
  }

  /** The first reported name comes from the leftmost match, and scanning resumes after that match. */
  lemma {:induction false} ScanLeftmost(table: seq<Option<CallSite>>, from: nat, i: nat)
    requires ValidTable(table) && from <= i < |table|
    requires table[i].Some?
    requires forall j :: from <= j < i ==> table[j].None?
    ensures Scan(table, from) == [table[i].value.shortName] + Scan(table, table[i].value.end)
    decreases i - from
  {
    if from < i {
      ScanLeftmost(table, from + 1, i);
    }
  }

  /** A file yields no call-site reference exactly when the call-site pattern matches nowhere in it. */
  lemma NoCallSites(fileContent: string)
    ensures CallSiteNames(fileContent) == [] <==> forall i :: 0 <= i < |fileContent| ==> CallAt(fileContent, i).None?
  {
    var table := MatchTable(fileContent);
    MatchTableValid(fileContent);
    ScanEmpty(table, 0);
    assert forall i :: 0 <= i < |fileContent| ==> table[i] == CallAt(fileContent, i);
  }

  // ---------------------------------------------------------------------------
  // The `use`-statement patterns
  // ---------------------------------------------------------------------------

  /**
    The three `use` patterns of matchPartialNamespace, each with the text it is built from:
    - ImportOf(s):       `^use\s([a-z0-9\\]+s);$`   capture: the whole imported name;
    - AliasAs(s):        `^use\s([a-z0-9\\]+)\sas\ss;$`   capture: the imported name;
    - ImportEndingIn(s): `^use\s([a-z0-9\\]+)s;$`   capture: the name before `s`.
    The text `s` always comes from a call-site capture, so it consists of name characters.
   */
  datatype UsePattern =
    | ImportOf(shortName: string)
    | AliasAs(shortName: string)
    | ImportEndingIn(segment: string)

  /** `^` in multi-line mode. */
  predicate LineStart(text: string, i: nat) {
    i == 0 || (i <= |text| && text[i - 1] == '\n')
  }

  /** `;$` in multi-line mode: a semicolon at `k` followed by the end of the text or a line feed. */
  predicate StatementEnd(text: string, k: nat) {
    k < |text| && text[k] == ';' && (k + 1 == |text| || text[k + 1] == '\n')
  }

  /** The capture group of pattern `pat` when it matches at exactly position `i`. */
  function UseAt(text: string, i: nat, pat: UsePattern): (capture: Option<string>)
    requires i <= |text|
    ensures capture.Some? ==> IsName(capture.value)
  {
    if UseKeyword(text, i) then UseClause(text, i + 4, pat) else None
  }

  /** `^use\s` matched at `i`. */
  predicate UseKeyword(text: string, i: nat)
    requires i <= |text|
  {
    LineStart(text, i) && CiPrefixAt(text, i, "use") && i + 3 < |text| && IsSpace(text[i + 3])
  }

  /** The rest of pattern `pat` after `^use\s`, matched at exactly position `s`. */
  function UseClause(text: string, s: nat, pat: UsePattern): (capture: Option<string>)
    requires s <= |text|
    ensures capture.Some? ==> IsName(capture.value)
  {
    var e := SpanEnd(text, s, Name);
    match pat
    case ImportOf(shortName) =>
      if e - s > |shortName| && CiPrefixAt(text, e - |shortName|, shortName) && StatementEnd(text, e)
      then Some(text[s..e]) else None
    case ImportEndingIn(segment) =>
      if e - s > |segment| && CiPrefixAt(text, e - |segment|, segment) && StatementEnd(text, e)
      then Some(text[s..e - |segment|]) else None
    case AliasAs(shortName) =>
      if s < e && e + 3 < |text| && IsSpace(text[e]) && CiPrefixAt(text, e + 1, "as") && IsSpace(text[e + 3])
         && CiPrefixAt(text, e + 4, shortName) && StatementEnd(text, e + 4 + |shortName|)
      then Some(text[s..e]) else None
  }


  /** `pat` matches at `i` and at no earlier position: `$matches[1][0]` comes from here. */
  predicate FirstAt(text: string, i: nat, pat: UsePattern) {
    i <= |text| && UseAt(text, i, pat).Some? && forall j :: 0 <= j < i ==> UseAt(text, j, pat).None?
  }

  /** `pat` matches nowhere: `isset($matches[1][0])` is false. */
  predicate NoUse(text: string, pat: UsePattern) {
    forall j :: 0 <= j <= |text| ==> UseAt(text, j, pat).None?
  }

  /** Position of the leftmost match of `pat` at or after `from`. */
  function FirstUse(text: string, from: nat, pat: UsePattern): (r: Option<nat>)
    requires from <= |text|
    ensures r.Some? ==> from <= r.value <= |text| && UseAt(text, r.value, pat).Some?
    ensures r.Some? ==> forall j :: from <= j < r.value ==> UseAt(text, j, pat).None?
    ensures r.None? ==> forall j :: from <= j <= |text| ==> UseAt(text, j, pat).None?
    decreases |text| - from
  {
    if UseAt(text, from, pat).Some? then Some(from)
    else if from == |text| then None
    else FirstUse(text, from + 1, pat)
  }

  /** `$matches[1][0]` after `preg_match_all` with `pat`, or nothing when it is not set. */
  function FirstCapture(text: string, pat: UsePattern): (c: Option<string>)
    ensures c.None? <==> NoUse(text, pat)
    ensures forall i :: FirstAt(text, i, pat) ==> c == UseAt(text, i, pat)
  {
    match FirstUse(text, 0, pat)
    case Some(i) => UseAt(text, i, pat)
    case None => None
  }

  // ---------------------------------------------------------------------------
  // The languages of the patterns
  // ---------------------------------------------------------------------------

  /**
    The text the call-site pattern matches at `i`, with the positions where its parts meet:
    `get` or `create` in any case up to `p`, then `(` at `p` and the class argument after it.
   */
  predicate CallSpelled(text: string, i: nat, p: nat, q: nat, e: nat, t: nat) {
    ((CiPrefixAt(text, i, "get") && p == i + 3) || (CiPrefixAt(text, i, "create") && p == i + 6))
    && p < |text| && text[p] == '(' && ArgumentSpelled(text, p + 1, q, e, t)
  }

  /**
    The text `\s*([a-z0-9\\]+)::class\s*\)` matches at `j`: white space up to `q`, the
    reference from `q` to `e`, `::class` in any case, white space up to `t`, and `)` at `t`.
   */
  predicate ArgumentSpelled(text: string, j: nat, q: nat, e: nat, t: nat) {
    j <= q < e && e + 7 <= t < |text|
    && (forall k :: j <= k < q ==> IsSpace(text[k]))
    && (forall k :: q <= k < e ==> IsNameChar(text[k]))
    && CiPrefixAt(text, e, "::class")
    && (forall k :: e + 7 <= k < t ==> IsSpace(text[k]))
    && text[t] == ')'
  }

  /**
    The text ImportOf(s) and ImportEndingIn(s) match at `i`: `use` in any case at a line start,
    one white-space character (a line feed included), a non-empty run of name characters, `s`
    in any case ending at `e`, and `;` at `e` before the end of a line.
   */
  predicate ImportSpelled(text: string, i: nat, e: nat, s: string) {
    i + 4 + |s| < e < |text| && UseKeyword(text, i)
    && (forall k :: i + 4 <= k < e - |s| ==> IsNameChar(text[k]))
    && CiPrefixAt(text, e - |s|, s) && StatementEnd(text, e)
  }

  /**
    The text AliasAs(s) matches at `i`: `use` in any case at a line start, one white-space
    character, the imported name ending at `e`, one white-space character, `as` in any case,
    one white-space character, `s` in any case, and `;` before the end of a line.
   */
  predicate AliasSpelled(text: string, i: nat, e: nat, s: string) {
    i + 4 < e && e + 4 + |s| < |text| && UseKeyword(text, i)
    && (forall k :: i + 4 <= k < e ==> IsNameChar(text[k]))
    && IsSpace(text[e]) && CiPrefixAt(text, e + 1, "as") && IsSpace(text[e + 3])
    && CiPrefixAt(text, e + 4, s) && StatementEnd(text, e + 4 + |s|)
  }

  // ---------------------------------------------------------------------------
  // Greedy runs decide the match
  // ---------------------------------------------------------------------------

  /** A run of `cls` characters from `s` to `e` followed by a character outside `cls` (or the end) is what SpanEnd finds. */
  lemma SpanEndIs(text: string, s: nat, e: nat, cls: CharClass)
    requires s <= e <= |text|
    requires forall k :: s <= k < e ==> InClass(text[k], cls)
    requires e < |text| ==> !InClass(text[e], cls)
    ensures SpanEnd(text, s, cls) == e
  {
  }

  /** `lit` occurs at position `i` of `text` character for character, so it also matches there under the `i` flag. */
  lemma LiteralAt(text: string, i: nat, lit: string)
    requires i + |lit| <= |text| && text[i..i + |lit|] == lit
    ensures CiPrefixAt(text, i, lit)
  {
    forall k | 0 <= k < |lit| ensures CiEq(text[i + k], lit[k]) {
      assert text[i + k] == text[i..i + |lit|][k];
    }
  }

  /** A piece `w` of the text that spells `lit` in any case makes `lit` match where `w` sits. */
  lemma SpelledAt(text: string, i: nat, w: string, lit: string)
    requires i + |w| <= |text| && text[i..i + |w|] == w
    requires |w| == |lit| && CiPrefixAt(w, 0, lit)
    ensures CiPrefixAt(text, i, lit)
  {
    forall k | 0 <= k < |lit| ensures CiEq(text[i + k], lit[k]) {
      assert text[i + k] == text[i..i + |w|][k] == w[0 + k];
    }
  }

  /** Characters that match a name character under the `i` flag are name characters. */
  lemma CiNameRun(text: string, i: nat, s: string)
    requires IsName(s) && CiPrefixAt(text, i, s)
    ensures forall k :: i <= k < i + |s| ==> IsNameChar(text[k])
  {
    forall k | i <= k < i + |s| ensures IsNameChar(text[k]) {
      assert CiEq(text[i + (k - i)], s[k - i]) && IsNameChar(s[k - i]);
    }
  }

  /** Every spelling of the class argument is matched, capturing the reference. */
  lemma ArgumentRecognized(text: string, j: nat, q: nat, e: nat, t: nat)
    requires ArgumentSpelled(text, j, q, e, t)
    ensures ClassArgument(text, j) == Some(CallSite(text[q..e], t + 1))
  {
    assert CiEq(text[e + 0], "::class"[0]);
    SpanEndIs(text, j, q, Space);
    SpanEndIs(text, q, e, Name);
    SpanEndIs(text, e + 7, t, Space);
  }

  /** A match of the class argument has the spelling ArgumentSpelled describes. */
  lemma ArgumentSpelledOf(text: string, j: nat) returns (q: nat, e: nat, t: nat)
    requires j <= |text| && ClassArgument(text, j).Some?
    ensures ArgumentSpelled(text, j, q, e, t)
    ensures ClassArgument(text, j) == Some(CallSite(text[q..e], t + 1))
  {
    q := SpanEnd(text, j, Space);
    e := SpanEnd(text, q, Name);
    t := SpanEnd(text, e + 7, Space);
  }

  /**
    `get` or `create`, in any case, at `i` is where `(get|create)` matches; the two
    alternatives never both match, since their first letters differ.
   */
  lemma KeywordAt(text: string, i: nat, p: nat)
    requires (CiPrefixAt(text, i, "get") && p == i + 3) || (CiPrefixAt(text, i, "create") && p == i + 6)
    ensures KeywordEnd(text, i) == Some(p)
  {
    if p == i + 6 && CiPrefixAt(text, i, "create") {
      assert CiEq(text[i + 0], "create"[0]);
      assert !CiEq(text[i + 0], "get"[0]);
    }
  }

  /**
    Every spelling the call-site pattern accepts is a call site: the reference between the
    parentheses is captured and the scan resumes after `)`.
   */
  lemma CallSiteRecognized(text: string, i: nat, p: nat, q: nat, e: nat, t: nat)
    requires CallSpelled(text, i, p, q, e, t)
    ensures CallAt(text, i) == Some(CallSite(text[q..e], t + 1))
  {
    KeywordAt(text, i, p);
    ArgumentRecognized(text, p + 1, q, e, t);
  }

  /** Conversely, a call site has the spelling the call-site pattern describes, and no other text is one. */
  lemma CallSiteSpelled(text: string, i: nat)
    requires i <= |text| && CallAt(text, i).Some?
    ensures exists p: nat, q: nat, e: nat, t: nat :: CallSpelled(text, i, p, q, e, t) && CallAt(text, i) == Some(CallSite(text[q..e], t + 1))
  {
    var p := KeywordEnd(text, i).value;
    var q, e, t := ArgumentSpelledOf(text, p + 1);
    assert (CiPrefixAt(text, i, "get") && p == i + 3) || (CiPrefixAt(text, i, "create") && p == i + 6);
    assert CallSpelled(text, i, p, q, e, t);
  }

  /** A name run from `s` to `e` followed by a character outside the class is what `[a-z0-9\\]+` consumes. */
  lemma NameRunAt(text: string, s: nat, e: nat)
    requires s <= e < |text| && !IsNameChar(text[e])
    requires forall k :: s <= k < e ==> IsNameChar(text[k])
    ensures SpanEnd(text, s, Name) == e
  {
    SpanEndIs(text, s, e, Name);
  }

  /**
    Every spelling ImportOf(s) accepts is matched, capturing the whole name, and ImportEndingIn(s)
    matches the same line, capturing the name before `s`. The backtracking of PCRE puts `s` at the
    end of the name run, just before `;`, which is where UseClause looks for it.
   */
  lemma ImportRecognized(text: string, i: nat, e: nat, s: string)
    requires IsName(s) && ImportSpelled(text, i, e, s)
    ensures UseAt(text, i, ImportOf(s)) == Some(text[i + 4..e])
    ensures UseAt(text, i, ImportEndingIn(s)) == Some(text[i + 4..e - |s|])
  {
    CiNameRun(text, e - |s|, s);
    NameRunAt(text, i + 4, e);
  }

  /** Every spelling AliasAs(s) accepts is matched, capturing the imported name. */
  lemma AliasRecognized(text: string, i: nat, e: nat, s: string)
    requires AliasSpelled(text, i, e, s)
    ensures UseAt(text, i, AliasAs(s)) == Some(text[i + 4..e])
  {
    NameRunAt(text, i + 4, e);
  }

  /** Conversely, a match of a `use` pattern has the spelling its language describes. */
  lemma UseSpelled(text: string, i: nat, pat: UsePattern)
    requires i <= |text| && UseAt(text, i, pat).Some?
    ensures match pat
      case ImportOf(s) => exists e: nat :: ImportSpelled(text, i, e, s) && UseAt(text, i, pat) == Some(text[i + 4..e])
      case ImportEndingIn(s) => exists e: nat :: ImportSpelled(text, i, e, s) && UseAt(text, i, pat) == Some(text[i + 4..e - |s|])
      case AliasAs(s) => exists e: nat :: AliasSpelled(text, i, e, s) && UseAt(text, i, pat) == Some(text[i + 4..e])
  {
    var e := SpanEnd(text, i + 4, Name);
    match pat
    case ImportOf(s) =>
      assert ImportSpelled(text, i, e, s);
    case ImportEndingIn(s) =>
      assert ImportSpelled(text, i, e, s);
    case AliasAs(s) =>
      assert AliasSpelled(text, i, e, s);
  }

  // ---------------------------------------------------------------------------
  // Whole lines
  // ---------------------------------------------------------------------------

  /** `head` is `use` in any case followed by one white-space character, a line feed included. */
  predicate UseHead(head: string) {
    |head| == 4 && CiPrefixAt(head, 0, "use") && IsSpace(head[3])
  }

  /** `clause` is `as` in any case between two white-space characters. */
  predicate AsClause(clause: string) {
    |clause| == 4 && IsSpace(clause[0]) && CiPrefixAt(clause, 1, "as") && IsSpace(clause[3])
  }

  /** The text at `i` starts a line with `head`, so `^use\s` matches there. */
  lemma UseHeadAt(text: string, i: nat, head: string)
    requires LineStart(text, i) && UseHead(head)
    requires i + 4 <= |text| && text[i..i + 4] == head
    ensures UseKeyword(text, i)
  {
    assert text[i..i + 3] == text[i..i + 4][..3] == head[..3];
    SpelledAt(text, i, head[..3], "use");
    assert text[i + 3] == head[3];
  }

  /** The text at `e` holds `clause`, so `\sas\s` matches there. */
  lemma AsClauseAt(text: string, e: nat, clause: string)
    requires AsClause(clause) && e + 4 <= |text| && text[e..e + 4] == clause
    ensures IsSpace(text[e]) && CiPrefixAt(text, e + 1, "as") && IsSpace(text[e + 3])
  {
    assert text[e + 1] == clause[1] && text[e + 2] == clause[2] by {
      assert text[e + 1] == text[e..e + 4][1] && text[e + 2] == text[e..e + 4][2];
    }
    assert text[e + 1..e + 3] == clause[1..3];
    SpelledAt(text, e + 1, clause[1..3], "as");
    assert text[e] == clause[0] && text[e + 3] == clause[3];
  }

  /** `;` at `f`, then a line feed or the end of the text. */
  lemma StatementEndAt(before: string, after: string)
    requires after == [] || after[0] == '\n'
    ensures StatementEnd(before + ";" + after, |before|)
  {
    var text := before + ";" + after;
    assert text[|before|] == ';';
    assert |before| + 1 < |text| ==> text[|before| + 1] == after[0];
  }

  /** The pieces of an import line sit where ImportSpelled expects them. */
  lemma ImportLineSpelled(before: string, head: string, prefix: string, written: string, shortName: string, after: string)
    requires before == [] || before[|before| - 1] == '\n'
    requires UseHead(head) && IsName(prefix) && |written| == |shortName| && CiPrefixAt(written, 0, shortName)
    requires after == [] || after[0] == '\n'
    ensures var text := before + head + prefix + written + ";" + after;
      ImportSpelled(text, |before|, |before| + 4 + |prefix| + |written|, shortName)
      && text[|before| + 4..|before| + 4 + |prefix| + |written|] == prefix + written
  {
    var line := before + head + prefix + written;
    var text := line + ";" + after;
    var i, m := |before|, |before| + 4 + |prefix|;
    var e := m + |written|;
    assert UseKeyword(text, i) by {
      assert text[i..i + 4] == head;
      UseHeadAt(text, i, head);
    }
    assert forall k :: i + 4 <= k < m ==> IsNameChar(text[k]) by {
      forall k | i + 4 <= k < m ensures IsNameChar(text[k]) {
        assert text[k] == prefix[k - (i + 4)];
      }
    }
    assert CiPrefixAt(text, m, shortName) by {
      assert text[m..e] == written;
      SpelledAt(text, m, written, shortName);
    }
    StatementEndAt(line, after);
    assert text[i + 4..e] == prefix + written;
  }

  /**
    A line `use <prefix><written>;`, with `use` in any case followed by any white-space character
    and `written` spelling `shortName` in any case, is matched by the ImportOf(shortName) pattern
    with the line's own spelling as capture. The prefix need not end in a namespace separator:
    `use Foo\MyBar;` is matched for `Bar`.
   */
  lemma ImportLineRecognized(before: string, head: string, prefix: string, written: string, shortName: string, after: string)
    requires before == [] || before[|before| - 1] == '\n'
    requires UseHead(head) && IsName(prefix) && IsName(shortName)
    requires |written| == |shortName| && CiPrefixAt(written, 0, shortName)
    requires after == [] || after[0] == '\n'
    ensures UseAt(before + head + prefix + written + ";" + after, |before|, ImportOf(shortName)) == Some(prefix + written)
  {
    ImportLineSpelled(before, head, prefix, written, shortName, after);
    ImportRecognized(before + head + prefix + written + ";" + after, |before|, |before| + 4 + |prefix| + |written|, shortName);
  }

  /** The pieces of an alias line sit where AliasSpelled expects them. */
  lemma AliasLineSpelled(before: string, head: string, name: string, clause: string, written: string, shortName: string, after: string)
    requires before == [] || before[|before| - 1] == '\n'
    requires UseHead(head) && IsName(name) && AsClause(clause)
    requires |written| == |shortName| && CiPrefixAt(written, 0, shortName)
    requires after == [] || after[0] == '\n'
    ensures var text := before + head + name + clause + written + ";" + after;
      AliasSpelled(text, |before|, |before| + 4 + |name|, shortName)
      && text[|before| + 4..|before| + 4 + |name|] == name
  {
    var line := before + head + name + clause + written;
    var text := line + ";" + after;
    var i, e := |before|, |before| + 4 + |name|;
    var f := e + 4 + |written|;
    assert UseKeyword(text, i) by {
      assert text[i..i + 4] == head;
      UseHeadAt(text, i, head);
    }
    assert text[i + 4..e] == name;
    assert forall k :: i + 4 <= k < e ==> IsNameChar(text[k]) by {
      forall k | i + 4 <= k < e ensures IsNameChar(text[k]) {
        assert text[k] == name[k - (i + 4)];
      }
    }
    assert text[e..e + 4] == clause;
    AsClauseAt(text, e, clause);
    assert CiPrefixAt(text, e + 4, shortName) by {
      assert text[e + 4..f] == written;
      SpelledAt(text, e + 4, written, shortName);
    }
    StatementEndAt(line, after);
  }

  /**
    A line `use <name> as <alias>;`, with `use` and `as` in any case, any single white-space
    character after `use` and around `as`, and `written` spelling `shortName` in any case, is
    matched by the AliasAs(shortName) pattern with `name` as capture.
   */
  lemma AliasLineRecognized(before: string, head: string, name: string, clause: string, written: string, shortName: string, after: string)
    requires before == [] || before[|before| - 1] == '\n'
    requires UseHead(head) && IsName(name) && AsClause(clause)
    requires |written| == |shortName| && CiPrefixAt(written, 0, shortName)
    requires after == [] || after[0] == '\n'
    ensures UseAt(before + head + name + clause + written + ";" + after, |before|, AliasAs(shortName)) == Some(name)
  {
    AliasLineSpelled(before, head, name, clause, written, shortName, after);
    AliasRecognized(before + head + name + clause + written + ";" + after, |before|, |before| + 4 + |name|, shortName);
  }
}
