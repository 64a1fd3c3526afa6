/** The failure categoriser (`categorize_message`): an ordered table of (label, patterns)
    rules scanned against the lowercased message; the first rule with a matching pattern
    gives the label, "Other" when none matches. The regular-expression engine is a parameter:
    the order of the scan, not the engine, is what this module is about. */
module Categorize {
  import opened Wrappers
  import opened Strings

  /** What a regular-expression search reports: a match somewhere in the text, no match, or
      a pattern the engine rejects (Python's `re.error`). */
  datatype SearchOutcome = Found | NotFound | BadPattern

  /** `re.search(pattern, text)`. */
  type Search = (string, string) -> SearchOutcome

  datatype CategoryRule = CategoryRule(category: string, patterns: seq<string>)

  const OtherLabel := "Other"

  /** `CATEGORY_PATTERNS`, in table order. */
  const CategoryPatterns: seq<CategoryRule> := [
    CategoryRule("Timeout", [@"\btimeout\b", @"\btimed out\b", "timeouterror"]),
    CategoryRule("Element not found",
      ["elementnotfound", "element not found", "no such element", "noelement", "could not find element"]),
    CategoryRule("Assertion", ["assertionerror", @"\bassert\b", "expected .* but", "assert failed"]),
    CategoryRule("Network/Connection",
      ["connectionerror", "failed to connect", "connection refused", "socket.timeout", "connection timed out"]),
    CategoryRule("Database",
      [@"\bdb\b", @"\bdatabase\b", "sqlexception", "psycopg2", "postgres", "mysql", "sqlite"]),
    CategoryRule("Auth/Authorization", ["unauthorized", @"\bauth\b", "403", "401", "forbidden"]),
    CategoryRule("Timeout/Long Running", ["long running", @"\bslow\b", "response time", "timed out after"])
  ]

  /** Some pattern of the rule, lowercased as the source does, is found in `text`. */
  predicate RuleMatches(rule: CategoryRule, search: Search, text: string) {
    exists k :: 0 <= k < |rule.patterns| && search(Lower(rule.patterns[k]), text) == Found
  }

  /** The inner loop: the patterns of one rule in listed order; a pattern the engine rejects
      is skipped (`except re.error: continue`). */
  function ScanPatterns(patterns: seq<string>, search: Search, text: string): (r: bool)
    ensures r <==> exists k :: 0 <= k < |patterns| && search(Lower(patterns[k]), text) == Found
  {
    if patterns == [] then false
    else
      match search(Lower(patterns[0]), text)
      case Found => true
      case NotFound => ScanPatterns(patterns[1..], search, text)
      case BadPattern => ScanPatterns(patterns[1..], search, text)
  }

  /** `i` is the first rule of the table that matches. */
  predicate IsFirstMatchingRule(rules: seq<CategoryRule>, search: Search, text: string, i: int) {
    0 <= i < |rules| && RuleMatches(rules[i], search, text)
    && forall j :: 0 <= j < i ==> !RuleMatches(rules[j], search, text)
  }

  /** The outer loop, from rule `i` on, all earlier rules having failed to match. */
  function FirstMatchingRule(rules: seq<CategoryRule>, search: Search, text: string, i: nat): (r: Option<nat>)
    requires i <= |rules|
    requires forall j :: 0 <= j < i ==> !RuleMatches(rules[j], search, text)
    ensures r.Some? ==> IsFirstMatchingRule(rules, search, text, r.value)
    ensures r.None? ==> forall j :: 0 <= j < |rules| ==> !RuleMatches(rules[j], search, text)
    decreases |rules| - i
  {
    if i == |rules| then None
    else if ScanPatterns(rules[i].patterns, search, text) then Some(i)
    else FirstMatchingRule(rules, search, text, i + 1)
  }

  /** `categorize_message` over an arbitrary rule table. */
  function CategorizeWith(rules: seq<CategoryRule>, search: Search, msg: string): (r: string)
    ensures r == OtherLabel || exists i :: 0 <= i < |rules| && r == rules[i].category
  {
    match FirstMatchingRule(rules, search, Lower(msg), 0)
    case None => OtherLabel
    case Some(i) => rules[i].category
  }

  /** `categorize_message` with the built-in table: one of its seven labels, or "Other". */
  function CategorizeMessage(search: Search, msg: string): (r: string)
    ensures r in {"Timeout", "Element not found", "Assertion", "Network/Connection", "Database",
                  "Auth/Authorization", "Timeout/Long Running", OtherLabel}
  {
    CategorizeWith(CategoryPatterns, search, msg)
  }

  /** First match wins: when rule `i` matches and no earlier rule does, its label is the
      answer, whatever later (possibly more specific) rules would say. */
  lemma FirstRuleWins(rules: seq<CategoryRule>, search: Search, msg: string, i: nat)
    requires IsFirstMatchingRule(rules, search, Lower(msg), i)
    ensures CategorizeWith(rules, search, msg) == rules[i].category
  {
  }

  /** The fallback label is given exactly when no rule matches, provided no rule of the
      table is itself labelled "Other". */
  lemma OtherIffNoMatch(rules: seq<CategoryRule>, search: Search, msg: string)
    requires forall i :: 0 <= i < |rules| ==> rules[i].category != OtherLabel
    ensures CategorizeWith(rules, search, msg) == OtherLabel
            <==> forall j :: 0 <= j < |rules| ==> !RuleMatches(rules[j], search, Lower(msg))
  {
  }

  /** The built-in table has distinct labels, none of which is "Other". */
  lemma DefaultLabels()
    ensures forall i :: 0 <= i < |CategoryPatterns| ==> CategoryPatterns[i].category != OtherLabel
    ensures forall i, j :: 0 <= i < j < |CategoryPatterns| ==> CategoryPatterns[i].category != CategoryPatterns[j].category
  {
  }

  /** A pattern the engine rejects changes nothing: deleting it from its rule gives the same
      category on every message. */
  lemma BadPatternSkipped(rules: seq<CategoryRule>, search: Search, msg: string, i: nat, k: nat)
    requires i < |rules| && k < |rules[i].patterns|
    requires search(Lower(rules[i].patterns[k]), Lower(msg)) == BadPattern
    ensures var ps := rules[i].patterns;
            CategorizeWith(rules[i := CategoryRule(rules[i].category, ps[..k] + ps[k + 1..])], search, msg)
            == CategorizeWith(rules, search, msg)
  {
    var ps := rules[i].patterns;
    var shorter := rules[i := CategoryRule(rules[i].category, ps[..k] + ps[k + 1..])];
    var text := Lower(msg);
    forall j | 0 <= j < |rules|
      ensures RuleMatches(shorter[j], search, text) <==> RuleMatches(rules[j], search, text)
    {
      if j == i {
        var qs := ps[..k] + ps[k + 1..];
        if RuleMatches(rules[i], search, text) {
          var m :| 0 <= m < |ps| && search(Lower(ps[m]), text) == Found;
          if m < k {
            assert qs[m] == ps[m];
          } else {
            assert m != k;
            assert qs[m - 1] == ps[m];
          }
        }
        if RuleMatches(shorter[i], search, text) {
          var m :| 0 <= m < |qs| && search(Lower(qs[m]), text) == Found;
          if m < k {
            assert qs[m] == ps[m];
          } else {
            assert qs[m] == ps[m + 1];
          }
        }
      }
    }
    SameMatchesSameCategory(rules, shorter, search, msg);
  }

  /** Two tables with the same labels and the same matching rules categorise alike. */
  lemma SameMatchesSameCategory(a: seq<CategoryRule>, b: seq<CategoryRule>, search: Search, msg: string)
    requires |a| == |b|
    requires forall j :: 0 <= j < |a| ==> a[j].category == b[j].category
    requires forall j :: 0 <= j < |a| ==> (RuleMatches(a[j], search, Lower(msg)) <==> RuleMatches(b[j], search, Lower(msg)))
    ensures CategorizeWith(a, search, msg) == CategorizeWith(b, search, msg)
  {
    var text := Lower(msg);
    var ra := FirstMatchingRule(a, search, text, 0);
    var rb := FirstMatchingRule(b, search, text, 0);
    if ra.Some? {
      FirstRuleWins(b, search, msg, ra.value);
    } else if rb.Some? {
      FirstRuleWins(a, search, msg, rb.value);
    }
  }

  /** Table order beats specificity: any message in which the engine finds "timeouterror"
      is a Timeout, even when it also reads as an assertion or a connection failure. */
  lemma TimeoutRuleFirst(search: Search, msg: string)
    requires search("timeouterror", Lower(msg)) == Found
    ensures CategorizeMessage(search, msg) == "Timeout"
  {
    assert Lower(CategoryPatterns[0].patterns[2]) == "timeouterror";
    assert RuleMatches(CategoryPatterns[0], search, Lower(msg));
    FirstRuleWins(CategoryPatterns, search, msg, 0);
  }
}
