/** Productions, grammars and the two alphabets derived from them
    (src/grammar.rs). A symbol is one character; upper case marks a
    nonterminal. */
module Grammars {
  import opened Chars
  import opened Wrappers

  /** A production `lhs -> rhs`. The datatype constructor plays the part of `Rule::new`. */
  datatype Rule = Rule(lhs: char, rhs: string)

  /** A grammar: its start symbol, its rules in order, and the two alphabets in
      first-occurrence order. It is never changed after `FromRules` builds it. */
  datatype Grammar = Grammar(start: char, rules: seq<Rule>, terminals: string, nonTerminals: string)

  /** A sentential form with the index of its leftmost nonterminal (`-1` when there is none).
      The source declares these types but defines no operation on them. */
  datatype Sentential = Sentential(form: string, firstNtIndex: int)

  /** One derivation step: the index of the rule applied and the form it produced. */
  type DerivationStep = (int, Sentential)

  datatype Derivation = Derivation(steps: seq<DerivationStep>)

  /** The meaning the source documents for `first_nt_index`. */
  ghost predicate FirstNtIndexAgrees(s: Sentential) {
    if forall k :: 0 <= k < |s.form| ==> !IsUpper(s.form[k]) then
      s.firstNtIndex == -1
    else
      0 <= s.firstNtIndex < |s.form| && IsUpper(s.form[s.firstNtIndex]) &&
      forall k :: 0 <= k < s.firstNtIndex ==> !IsUpper(s.form[k])
  }

  // ---------------------------------------------------------------- Rule

  /** `Rule::is_valid`: the left-hand side must be a nonterminal, that is an
      upper-case letter. */
  predicate RuleIsValid(r: Rule): (b: bool)
    ensures b <==> 'A' <= r.lhs <= 'Z'
  {
    IsUpper(r.lhs)
  }

  /** `Rule::display`: the left-hand side, then " -> ", then the right-hand side,
      and no other character. */
  function RuleDisplay(r: Rule): (s: string)
    ensures |s| == |r.rhs| + 5
    ensures s[0] == r.lhs && s[1..5] == " -> " && s[5..] == r.rhs
  {
    [r.lhs] + " -> " + r.rhs
  }

  /** Reads a rule back from its display text; the inverse of `RuleDisplay`. */
  function ParseRuleDisplay(s: string): Option<Rule> {
    if |s| >= 5 && s[1..5] == " -> " then Some(Rule(s[0], s[5..])) else None
  }

  /** The rule can be read back from its display text. */
  lemma RuleDisplayRoundTrip(r: Rule)
    ensures ParseRuleDisplay(RuleDisplay(r)) == Some(r)
  {
  }

  /** Two rules with the same display text are the same rule. */
  lemma RuleDisplayInjective(a: Rule, b: Rule)
    requires RuleDisplay(a) == RuleDisplay(b)
    ensures a == b
  {
    RuleDisplayRoundTrip(a);
    RuleDisplayRoundTrip(b);
  }

  // ------------------------------------------------- alphabet specification

  /** The upper-case characters of `s`, in order. */
  function UpperOf(s: string): (r: string)
    decreases |s|
  {
    if s == [] then []
    else UpperOf(s[..|s| - 1]) + (if IsUpper(s[|s| - 1]) then [s[|s| - 1]] else [])
  }

  /** The other characters of `s`, in order. */
  function OtherOf(s: string): (r: string)
    decreases |s|
  {
    if s == [] then []
    else OtherOf(s[..|s| - 1]) + (if IsUpper(s[|s| - 1]) then [] else [s[|s| - 1]])
  }

  /** Every candidate pushed onto `non_terminals`, in scanning order: each rule's
      left-hand side, then the upper-case characters of its right-hand side. */
  function NonTerminalStream(rules: seq<Rule>): string
    decreases |rules|
  {
    if rules == [] then []
    else NonTerminalStream(rules[..|rules| - 1]) + [rules[|rules| - 1].lhs] + UpperOf(rules[|rules| - 1].rhs)
  }

  /** Every candidate pushed onto `terminals`, in scanning order. */
  function TerminalStream(rules: seq<Rule>): string
    decreases |rules|
  {
    if rules == [] then []
    else TerminalStream(rules[..|rules| - 1]) + OtherOf(rules[|rules| - 1].rhs)
  }

  /** Pushes `c` unless it is already there (`if !s.contains(c) { s.push(c) }`). */
  function AddNew(acc: string, c: char): string {
    if c in acc then acc else acc + [c]
  }

  /** The characters of `s` with later repetitions dropped. */
  function Dedup(s: string): string
    decreases |s|
  {
    if s == [] then [] else AddNew(Dedup(s[..|s| - 1]), s[|s| - 1])
  }

  predicate NoDuplicates(s: string) {
    forall i, j :: 0 <= i < j < |s| ==> s[i] != s[j]
  }

  /** The grammar `Grammar::from_rules` builds. */
  function GrammarOf(rules: seq<Rule>): Grammar
    requires |rules| > 0
  {
    Grammar(rules[0].lhs, rules, Dedup(TerminalStream(rules)), Dedup(NonTerminalStream(rules)))
  }

  // ------------------------------------------------------------ Dedup lemmas

  lemma DedupSnoc(s: string, c: char)
    ensures Dedup(s + [c]) == AddNew(Dedup(s), c)
  {
  }

  /** Deduplication keeps exactly the characters of its input. */
  lemma {:induction false} DedupMembers(s: string)
    ensures forall c :: c in Dedup(s) <==> c in s
    decreases |s|
  {
    if s != [] {
      var p := s[..|s| - 1];
      DedupMembers(p);
      assert s == p + [s[|s| - 1]];
    }
  }

  /** Deduplication leaves no character twice. */
  lemma {:induction false} DedupNoDuplicates(s: string)
    ensures NoDuplicates(Dedup(s))
    decreases |s|
  {
    if s != [] {
      DedupNoDuplicates(s[..|s| - 1]);
    }
  }

  /** The first input character comes first. */
  lemma {:induction false} DedupHead(s: string)
    requires s != []
    ensures |Dedup(s)| > 0 && Dedup(s)[0] == s[0]
    decreases |s|
  {
    if |s| > 1 {
      var p := s[..|s| - 1];
      DedupHead(p);
      assert p[0] == s[0];
    }
  }

  /** Reading more input only appends: the result for a prefix of the input is a
      prefix of the result, so characters stay in first-occurrence order. */
  lemma {:induction false} DedupPrefix(s: string, k: nat)
    requires k <= |s|
    ensures Dedup(s[..k]) <= Dedup(s)
    decreases |s| - k
  {
    if k < |s| {
      var p := s[..|s| - 1];
      assert s[..k] == p[..k];
      DedupPrefix(p, k);
    } else {
      assert s[..k] == s;
    }
  }

  // ----------------------------------------------------------- stream lemmas

  lemma {:induction false} UpperOfMembers(s: string)
    ensures forall c :: c in UpperOf(s) <==> c in s && IsUpper(c)
    decreases |s|
  {
    if s != [] {
      var p := s[..|s| - 1];
      UpperOfMembers(p);
      assert s == p + [s[|s| - 1]];
    }
  }

  lemma {:induction false} OtherOfMembers(s: string)
    ensures forall c :: c in OtherOf(s) <==> c in s && !IsUpper(c)
    decreases |s|
  {
    if s != [] {
      var p := s[..|s| - 1];
      OtherOfMembers(p);
      assert s == p + [s[|s| - 1]];
    }
  }

  lemma UpperOfSnoc(s: string, c: char)
    ensures UpperOf(s + [c]) == UpperOf(s) + (if IsUpper(c) then [c] else [])
    ensures OtherOf(s + [c]) == OtherOf(s) + (if IsUpper(c) then [] else [c])
  {
  }

  lemma {:induction false} NonTerminalStreamMembers(rules: seq<Rule>)
    ensures forall c :: c in NonTerminalStream(rules) <==>
      exists r :: r in rules && (r.lhs == c || (c in r.rhs && IsUpper(c)))
    decreases |rules|
  {
    if rules != [] {
      var p := rules[..|rules| - 1];
      var last := rules[|rules| - 1];
      NonTerminalStreamMembers(p);
      UpperOfMembers(last.rhs);
      assert rules == p + [last];
      forall c | exists r :: r in rules && (r.lhs == c || (c in r.rhs && IsUpper(c)))
        ensures c in NonTerminalStream(rules)
      {
        var r :| r in rules && (r.lhs == c || (c in r.rhs && IsUpper(c)));
        if r != last {
          assert r in p;
        }
      }
    }
  }

  lemma {:induction false} TerminalStreamMembers(rules: seq<Rule>)
    ensures forall c :: c in TerminalStream(rules) <==>
      exists r :: r in rules && c in r.rhs && !IsUpper(c)
    decreases |rules|
  {
    if rules != [] {
      var p := rules[..|rules| - 1];
      var last := rules[|rules| - 1];
      TerminalStreamMembers(p);
      OtherOfMembers(last.rhs);
      assert rules == p + [last];
      forall c | exists r :: r in rules && c in r.rhs && !IsUpper(c)
        ensures c in TerminalStream(rules)
      {
        var r :| r in rules && c in r.rhs && !IsUpper(c);
        if r != last {
          assert r in p;
        }
      }
    }
  }

  lemma {:induction false} NonTerminalStreamHead(rules: seq<Rule>)
    requires |rules| > 0
    ensures |NonTerminalStream(rules)| > 0 && NonTerminalStream(rules)[0] == rules[0].lhs
    decreases |rules|
  {
    if |rules| > 1 {
      NonTerminalStreamHead(rules[..|rules| - 1]);
    }
  }

  lemma {:induction false} StreamsPrefix(rules: seq<Rule>, k: nat)
    requires k <= |rules|
    ensures NonTerminalStream(rules[..k]) <= NonTerminalStream(rules)
    ensures TerminalStream(rules[..k]) <= TerminalStream(rules)
    decreases |rules| - k
  {
    if k < |rules| {
      var p := rules[..|rules| - 1];
      assert rules[..k] == p[..k];
      StreamsPrefix(p, k);
    } else {
      assert rules[..k] == rules;
    }
  }

  // ---------------------------------------------------------- grammar lemmas

  /** The start symbol is the first rule's left-hand side and the first nonterminal. */
  lemma StartIsFirstNonTerminal(rules: seq<Rule>)
    requires |rules| > 0
    ensures GrammarOf(rules).start == rules[0].lhs
    ensures |GrammarOf(rules).nonTerminals| > 0 && GrammarOf(rules).nonTerminals[0] == rules[0].lhs
  {
    NonTerminalStreamHead(rules);
    DedupHead(NonTerminalStream(rules));
  }

  /** Neither alphabet holds a character twice. */
  lemma AlphabetsHaveNoDuplicates(rules: seq<Rule>)
    requires |rules| > 0
    ensures NoDuplicates(GrammarOf(rules).terminals)
    ensures NoDuplicates(GrammarOf(rules).nonTerminals)
  {
    DedupNoDuplicates(TerminalStream(rules));
    DedupNoDuplicates(NonTerminalStream(rules));
  }

  /** `nonTerminals` holds every left-hand side and every upper-case right-hand-side
      character, and nothing else. */
  lemma NonTerminalsExact(rules: seq<Rule>, c: char)
    requires |rules| > 0
    ensures c in GrammarOf(rules).nonTerminals <==>
      exists r :: r in rules && (r.lhs == c || (c in r.rhs && IsUpper(c)))
  {
    DedupMembers(NonTerminalStream(rules));
    NonTerminalStreamMembers(rules);
  }

  /** `terminals` holds every non-upper-case right-hand-side character, and nothing else. */
  lemma TerminalsExact(rules: seq<Rule>, c: char)
    requires |rules| > 0
    ensures c in GrammarOf(rules).terminals <==>
      exists r :: r in rules && c in r.rhs && !IsUpper(c)
  {
    DedupMembers(TerminalStream(rules));
    TerminalStreamMembers(rules);
  }

  /** No upper-case character is ever a terminal. */
  lemma TerminalsNeverUpper(rules: seq<Rule>, c: char)
    requires |rules| > 0
    requires c in GrammarOf(rules).terminals
    ensures !IsUpper(c)
  {
    TerminalsExact(rules, c);
  }

  /** When every rule is valid the two alphabets are disjoint. */
  lemma AlphabetsDisjointWhenValid(rules: seq<Rule>, c: char)
    requires |rules| > 0
    requires forall r :: r in rules ==> RuleIsValid(r)
    ensures !(c in GrammarOf(rules).terminals && c in GrammarOf(rules).nonTerminals)
  {
    TerminalsExact(rules, c);
    NonTerminalsExact(rules, c);
  }

  /** A valid rule's left-hand side is a nonterminal of the grammar and never a terminal. */
  lemma ValidRuleLhsIsNonTerminal(rules: seq<Rule>, i: nat)
    requires i < |rules|
    requires RuleIsValid(rules[i])
    ensures rules[i].lhs in GrammarOf(rules).nonTerminals
    ensures rules[i].lhs !in GrammarOf(rules).terminals
  {
    NonTerminalsExact(rules, rules[i].lhs);
    TerminalsExact(rules, rules[i].lhs);
  }

  /** An invalid rule (lower-case left-hand side) can put the same character in both alphabets. */
  lemma InvalidRuleOverlaps()
    ensures 'a' in GrammarOf([Rule('a', "a")]).terminals
    ensures 'a' in GrammarOf([Rule('a', "a")]).nonTerminals
  {
  }

  /** Insertion order: the alphabets of the first `k` rules are prefixes of the
      alphabets of all of them. */
  lemma AlphabetsKeepInsertionOrder(rules: seq<Rule>, k: nat)
    requires 0 < k <= |rules|
    ensures GrammarOf(rules[..k]).nonTerminals <= GrammarOf(rules).nonTerminals
    ensures GrammarOf(rules[..k]).terminals <= GrammarOf(rules).terminals
  {
    var nts, ts := NonTerminalStream(rules), TerminalStream(rules);
    StreamsPrefix(rules, k);
    assert NonTerminalStream(rules[..k]) == nts[..|NonTerminalStream(rules[..k])|];
    assert TerminalStream(rules[..k]) == ts[..|TerminalStream(rules[..k])|];
    DedupPrefix(nts, |NonTerminalStream(rules[..k])|);
    DedupPrefix(ts, |TerminalStream(rules[..k])|);
  }

  lemma SeenEmpty(ntSeen: string, tSeen: string, rhs: string)
    ensures ntSeen + UpperOf(rhs[..0]) == ntSeen
    ensures tSeen + OtherOf(rhs[..0]) == tSeen
  {
  }

  /** One more right-hand-side character extends exactly one of the two streams. */
  lemma SeenSnoc(ntSeen: string, tSeen: string, rhs: string, j: nat)
    requires j < |rhs|
    ensures IsUpper(rhs[j]) ==>
      Dedup(ntSeen + UpperOf(rhs[..j + 1])) == AddNew(Dedup(ntSeen + UpperOf(rhs[..j])), rhs[j]) &&
      tSeen + OtherOf(rhs[..j + 1]) == tSeen + OtherOf(rhs[..j])
    ensures !IsUpper(rhs[j]) ==>
      Dedup(tSeen + OtherOf(rhs[..j + 1])) == AddNew(Dedup(tSeen + OtherOf(rhs[..j])), rhs[j]) &&
      ntSeen + UpperOf(rhs[..j + 1]) == ntSeen + UpperOf(rhs[..j])
  {
    var ch := rhs[j];
    assert rhs[..j + 1] == rhs[..j] + [ch];
    UpperOfSnoc(rhs[..j], ch);
    if IsUpper(ch) {
      assert ntSeen + UpperOf(rhs[..j + 1]) == (ntSeen + UpperOf(rhs[..j])) + [ch];
      DedupSnoc(ntSeen + UpperOf(rhs[..j]), ch);
    } else {
      assert tSeen + OtherOf(rhs[..j + 1]) == (tSeen + OtherOf(rhs[..j])) + [ch];
      DedupSnoc(tSeen + OtherOf(rhs[..j]), ch);
    }
  }

  /** The streams of one more rule extend those of the rules before it. */
  lemma StreamsSnoc(rules: seq<Rule>, i: nat)
    requires i < |rules|
    ensures NonTerminalStream(rules[..i + 1]) ==
      NonTerminalStream(rules[..i]) + [rules[i].lhs] + UpperOf(rules[i].rhs[..|rules[i].rhs|])
    ensures TerminalStream(rules[..i + 1]) == TerminalStream(rules[..i]) + OtherOf(rules[i].rhs[..|rules[i].rhs|])
  {
    assert rules[..i + 1][..i] == rules[..i];
    assert rules[i].rhs[..|rules[i].rhs|] == rules[i].rhs;
  }

  // ---------------------------------------------------------- Grammar methods

  /** `Grammar::from_rules`: one pass over the rules, pushing each new symbol onto
      the alphabet its case selects. The source indexes `rules[0]`, so an empty
      list is outside its domain. */
  method FromRules(rules: seq<Rule>) returns (g: Grammar)
    requires |rules| > 0
    ensures g == GrammarOf(rules)
    ensures g.start == rules[0].lhs && g.rules == rules
  {
    var start := rules[0].lhs;
    var terminals: string := [];
    var nonTerminals: string := [];
    for i := 0 to |rules|
      invariant nonTerminals == Dedup(NonTerminalStream(rules[..i]))
      invariant terminals == Dedup(TerminalStream(rules[..i]))
    {
      var rule := rules[i];
      ghost var ntSeen := NonTerminalStream(rules[..i]) + [rule.lhs];
      ghost var tSeen := TerminalStream(rules[..i]);
      DedupSnoc(NonTerminalStream(rules[..i]), rule.lhs);
      if rule.lhs !in nonTerminals {
        nonTerminals := nonTerminals + [rule.lhs];
      }
      SeenEmpty(ntSeen, tSeen, rule.rhs);
      for j := 0 to |rule.rhs|
        invariant nonTerminals == Dedup(ntSeen + UpperOf(rule.rhs[..j]))
        invariant terminals == Dedup(tSeen + OtherOf(rule.rhs[..j]))
      {
        var ch := rule.rhs[j];
        SeenSnoc(ntSeen, tSeen, rule.rhs, j);
        if IsUpper(ch) {
          if ch !in nonTerminals {
            nonTerminals := nonTerminals + [ch];
          }
        } else {
          if ch !in terminals {
            terminals := terminals + [ch];
          }
        }
      }
      StreamsSnoc(rules, i);
    }
    assert rules[..|rules|] == rules;
    g := Grammar(start, rules, terminals, nonTerminals);
  }

  /** `Grammar::is_valid`: stops at the first invalid rule. */
  method IsValid(g: Grammar) returns (b: bool)
    ensures b <==> forall r :: r in g.rules ==> RuleIsValid(r)
  {
    for i := 0 to |g.rules|
      invariant forall k :: 0 <= k < i ==> RuleIsValid(g.rules[k])
    {
      if !RuleIsValid(g.rules[i]) {
        return false;
      }
    }
    return true;
  }

  const DISPLAY_HEADER := "Grammer:\n"

  /** Each rule's display text followed by a newline, in rule order. */
  function RuleLines(rules: seq<Rule>): string
    decreases |rules|
  {
    if rules == [] then []
    else RuleLines(rules[..|rules| - 1]) + RuleDisplay(rules[|rules| - 1]) + "\n"
  }

  /** The text `Grammar::display` produces. */
  function DisplayText(g: Grammar): string {
    DISPLAY_HEADER + RuleLines(g.rules)
  }

  /** Appending rule `i`'s line to the display of the rules before it gives the
      display of the rules up to `i`. */
  lemma {:induction false} DisplayStep(rules: seq<Rule>, i: nat, s: string)
    requires i < |rules|
    requires s == DISPLAY_HEADER + RuleLines(rules[..i])
    ensures s + (RuleDisplay(rules[i]) + "\n") == DISPLAY_HEADER + RuleLines(rules[..i + 1])
  {
    RuleLinesSnoc(rules, i);
    AppendAssociates(DISPLAY_HEADER, RuleLines(rules[..i]), RuleDisplay(rules[i]) + "\n");
  }

  lemma {:induction false} RuleLinesSnoc(rules: seq<Rule>, i: nat)
    requires i < |rules|
    ensures RuleLines(rules[..i + 1]) == RuleLines(rules[..i]) + (RuleDisplay(rules[i]) + "\n")
  {
    assert rules[..i + 1][..i] == rules[..i];
  }

  lemma AppendAssociates(a: string, b: string, c: string)
    ensures (a + b) + c == a + (b + c)
  {
  }

  /** `Grammar::display`: the header, then one line per rule. */
  method Display(g: Grammar) returns (s: string)
    ensures s == DisplayText(g)
  {
    s := DISPLAY_HEADER;
    for i := 0 to |g.rules|
      invariant s == DISPLAY_HEADER + RuleLines(g.rules[..i])
    {
      DisplayStep(g.rules, i, s);
      s := s + (RuleDisplay(g.rules[i]) + "\n");
    }
    assert g.rules[..|g.rules|] == g.rules;
  }

  lemma {:induction false} RuleLinesPrefix(rules: seq<Rule>, k: nat)
    requires k <= |rules|
    ensures RuleLines(rules[..k]) <= RuleLines(rules)
    decreases |rules| - k
  {
    if k < |rules| {
      var p := rules[..|rules| - 1];
      assert rules[..k] == p[..k];
      RuleLinesPrefix(p, k);
    } else {
      assert rules[..k] == rules;
    }
  }

  /** The display starts with the header and shows rule `i` on its own line,
      right after the lines of the rules before it. */
  lemma {:induction false} DisplayShowsEachRule(g: Grammar, i: nat)
    requires i < |g.rules|
    ensures DisplayText(g)[..|DISPLAY_HEADER|] == DISPLAY_HEADER
    ensures var off := |DISPLAY_HEADER| + |RuleLines(g.rules[..i])|;
      var line := RuleDisplay(g.rules[i]) + "\n";
      off + |line| <= |DisplayText(g)| && DisplayText(g)[off..off + |line|] == line
  {
    var before := RuleLines(g.rules[..i]);
    var line := RuleDisplay(g.rules[i]) + "\n";
    RuleLinesPrefix(g.rules, i + 1);
    RuleLinesSnoc(g.rules, i);
    assert before + line <= RuleLines(g.rules);
    LineInsideText(DISPLAY_HEADER, before, line, RuleLines(g.rules));
    assert DisplayText(g) == DISPLAY_HEADER + RuleLines(g.rules);
  }

  /** Where a line sits in a header followed by text that begins with `before + line`. */
  lemma LineInsideText(header: string, before: string, line: string, text: string)
    requires before + line <= text
    ensures (header + text)[..|header|] == header
    ensures |header| + |before| + |line| <= |header + text|
    ensures (header + text)[|header| + |before|..|header| + |before| + |line|] == line
  {
    assert text[..|before| + |line|] == before + line;
  }
}
