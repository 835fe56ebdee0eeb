/** A keep as it is written: ParseRetention and Retention.String (core/backup/retention.go). */
module RetentionText {
  import opened Text
  import opened Retention

  function UnitChar(u: PeriodUnit): char {
    match u
    case Hour => 'h'
    case Day => 'd'
    case Week => 'w'
    case Month => 'm'
    case Year => 'y'
  }

  function UnitOf(c: char): Option<PeriodUnit> {
    if c == 'h' then Some(Hour)
    else if c == 'd' then Some(Day)
    else if c == 'w' then Some(Week)
    else if c == 'm' then Some(Month)
    else if c == 'y' then Some(Year)
    else None
  }

  /** What one word of a keep says. */
  datatype Rule = Bad | KeepLast(n: int) | KeepPeriods(unit: PeriodUnit, n: int)

  function RuleOf(word: string): (rule: Rule)
    requires word != ""
    ensures !rule.Bad? ==> 1 <= rule.n <= MAX_INT
  {
    match Atoi(word)
    case Some(n) => if n < 1 then Bad else KeepLast(n)
    case None =>
      match UnitOf(word[|word| - 1])
      case None => Bad
      case Some(unit) =>
        match Atoi(word[..|word| - 1])
        case None => Bad
        case Some(n) => if n < 1 then Bad else KeepPeriods(unit, n)
  }

  function Rules(words: seq<string>): (rules: seq<Rule>)
    requires forall i :: 0 <= i < |words| ==> words[i] != ""
    ensures |rules| == |words|
    ensures forall i :: 0 <= i < |words| ==> rules[i] == RuleOf(words[i])
  {
    if words == [] then [] else [RuleOf(words[0])] + Rules(words[1..])
  }

  ghost predicate FitsInt(r: Retention) {
    r.last <= MAX_INT && forall k :: 0 <= k < |r.periods| ==> r.periods[k].count <= MAX_INT
  }

  // ---------------------------------------------------------------- what the rules mean together

  ghost predicate Honoured(rule: Rule, r: Retention) {
    match rule
    case Bad => false
    case KeepLast(n) => n <= r.last
    case KeepPeriods(unit, n) =>
      exists k :: 0 <= k < |r.periods| && r.periods[k].unit == unit && n <= r.periods[k].count
  }

  /** `r` says nothing the rules do not. */
  ghost predicate Written(rules: seq<Rule>, r: Retention) {
    && (r.last == 0 || KeepLast(r.last) in rules)
    && forall p :: p in r.periods ==> KeepPeriods(p.unit, p.count) in rules
  }

  /** The rules say `r`: the largest number of runs, and the largest count of each unit. */
  ghost predicate Means(rules: seq<Rule>, r: Retention) {
    (forall rule :: rule in rules ==> Honoured(rule, r)) && Written(rules, r)
  }

  /** The position of the rule of a unit, the number of rules when there is none. */
  function UnitIndex(periods: seq<Period>, u: PeriodUnit): (n: nat)
    ensures n <= |periods|
    ensures n < |periods| ==> periods[n].unit == u
    ensures forall i :: 0 <= i < n ==> periods[i].unit != u
  {
    if periods == [] || periods[0].unit == u then 0 else 1 + UnitIndex(periods[1..], u)
  }

  /** The retention with one more rule, a unit given twice keeping the larger count. */
  function Merge(r: Retention, rule: Rule): Retention
    requires !rule.Bad?
  {
    match rule
    case KeepLast(n) => r.(last := if r.last < n then n else r.last)
    case KeepPeriods(unit, n) =>
      var i := UnitIndex(r.periods, unit);
      if i < |r.periods| then
        r.(periods := r.periods[i := Period(unit, if r.periods[i].count < n then n else r.periods[i].count)])
      else
        r.(periods := r.periods + [Period(unit, n)])
  }

  function MergeAll(r: Retention, rules: seq<Rule>): Option<Retention>
    decreases |rules|
  {
    if rules == [] then Some(r)
    else if rules[0].Bad? then None
    else MergeAll(Merge(r, rules[0]), rules[1..])
  }

  const NO_RULE := Retention(0, [])

  /** The retention a text says, if it says one. */
  function Parse(s: string): Option<Retention> {
    MergeAll(NO_RULE, Rules(Fields(s)))
  }

  lemma MergeNext(r: Retention, rules: seq<Rule>, i: nat)
    requires i < |rules|
    ensures MergeAll(r, rules[i..]) == if rules[i].Bad? then None else MergeAll(Merge(r, rules[i]), rules[i + 1..])
  {
    assert rules[i..][0] == rules[i] && rules[i..][1..] == rules[i + 1..];
  }

  method ParseRetention(s: string) returns (r: Option<Retention>)
    ensures r == Parse(s)
  {
    var words := Fields(s);
    ghost var rules := Rules(words);
    var last := 0;
    var periods: seq<Period> := [];
    for i := 0 to |words|
      invariant Parse(s) == MergeAll(Retention(last, periods), rules[i..])
    {
      MergeNext(Retention(last, periods), rules, i);
      var word := words[i];
      var number := Atoi(word);
      if number.Some? {
        if number.value < 1 {
          return None;
        }
        assert rules[i] == KeepLast(number.value);
        last := if last < number.value then number.value else last;
        continue;
      }
      var unit := UnitOf(word[|word| - 1]);
      if unit.None? {
        return None;
      }
      var count := Atoi(word[..|word| - 1]);
      if count.None? || count.value < 1 {
        return None;
      }
      assert rules[i] == KeepPeriods(unit.value, count.value);
      ghost var merged := Merge(Retention(last, periods), rules[i]);
      var at := UnitIndex(periods, unit.value);
      if at < |periods| {
        periods := periods[at := Period(unit.value,
            if periods[at].count < count.value then count.value else periods[at].count)];
        assert merged == Retention(last, periods);
        continue;
      }
      periods := periods + [Period(unit.value, count.value)];
      assert merged == Retention(last, periods);
    }
    return Some(Retention(last, periods));
  }

  ghost predicate Sound(rules: seq<Rule>) {
    forall i :: 0 <= i < |rules| ==> !rules[i].Bad? ==> 1 <= rules[i].n <= MAX_INT
  }

  lemma MergeParsed(r: Retention, rule: Rule)
    requires !rule.Bad? && 1 <= rule.n <= MAX_INT && r.Parsed() && FitsInt(r)
    ensures Merge(r, rule).Parsed() && FitsInt(Merge(r, rule))
  {
  }

  /** A rule honoured stays honoured as more rules are merged. */
  lemma MergeHonours(r: Retention, rule: Rule, earlier: Rule)
    requires !rule.Bad? && Honoured(earlier, r)
    ensures Honoured(earlier, Merge(r, rule))
  {
    if earlier.KeepPeriods? {
      var k :| 0 <= k < |r.periods| && r.periods[k].unit == earlier.unit && earlier.n <= r.periods[k].count;
      var m := Merge(r, rule);
      assert m.periods[k].unit == earlier.unit && earlier.n <= m.periods[k].count;
    }
  }

  lemma MergeHonoursItself(r: Retention, rule: Rule)
    requires !rule.Bad?
    ensures Honoured(rule, Merge(r, rule))
  {
    if rule.KeepPeriods? {
      var m := Merge(r, rule);
      var k := UnitIndex(r.periods, rule.unit);
      assert m.periods[k].unit == rule.unit && rule.n <= m.periods[k].count;
    }
  }

  lemma MergeWritten(before: seq<Rule>, r: Retention, rule: Rule)
    requires !rule.Bad? && Written(before, r)
    ensures Written(before + [rule], Merge(r, rule))
  {
  }

  lemma MergeMeans(before: seq<Rule>, r: Retention, rule: Rule)
    requires !rule.Bad? && Means(before, r)
    ensures Means(before + [rule], Merge(r, rule))
  {
    MergeWritten(before, r, rule);
    MergeHonoursItself(r, rule);
    forall earlier | earlier in before ensures Honoured(earlier, Merge(r, rule)) { MergeHonours(r, rule, earlier); }
  }

  lemma {:induction false} MergeAllMeans(before: seq<Rule>, r: Retention, rules: seq<Rule>)
    requires Sound(rules) && Means(before, r) && r.Parsed() && FitsInt(r)
    ensures MergeAll(r, rules) == None <==> Bad in rules
    ensures var m := MergeAll(r, rules);
            m.Some? ==> m.value.Parsed() && FitsInt(m.value) && Means(before + rules, m.value)
    decreases |rules|
  {
    if rules == [] {
      assert before + rules == before;
    } else if !rules[0].Bad? {
      var m := Merge(r, rules[0]);
      MergeParsed(r, rules[0]);
      MergeMeans(before, r, rules[0]);
      MergeAllMeans(before + [rules[0]], m, rules[1..]);
      assert before + rules == before + [rules[0]] + rules[1..];
    }
  }

  /** A keep is refused for a bad word and nothing else; accepted, it means what its words say. */
  lemma Meaning(s: string)
    ensures Parse(s) == None <==> Bad in Rules(Fields(s))
    ensures Parse(s).Some? ==>
              Parse(s).value.Parsed() && FitsInt(Parse(s).value) && Means(Rules(Fields(s)), Parse(s).value)
  {
    var rules := Rules(Fields(s));
    MergeAllMeans([], NO_RULE, rules);
    assert [] + rules == rules;
  }

  // ---------------------------------------------------------------- one word

  /** The text is a number of at least one that the int holds, with or without a plus. */
  ghost predicate Numeral(s: string, n: int) {
    exists digits :: (s == digits || s == "+" + digits) && Counts(digits, n)
  }

  ghost predicate Counts(digits: string, n: int) {
    digits != "" && AllDigits(digits) && Value(digits) == n && 1 <= n <= 0x7fff_ffff_ffff_ffff
  }

  ghost predicate Letter(c: char, u: PeriodUnit) {
    || (c == 'h' && u == Hour) || (c == 'd' && u == Day) || (c == 'w' && u == Week)
    || (c == 'm' && u == Month) || (c == 'y' && u == Year)
  }

  lemma AtoiNumeral(s: string, n: int)
    ensures Numeral(s, n) <==> Atoi(s) == Some(n) && n >= 1
  {
    if digits :| (s == digits || s == "+" + digits) && Counts(digits, n) {
      assert IsDigit(digits[0]);
      assert s == "+" + digits ==> s[1..] == digits && s[0] == '+';
    }
    if Atoi(s) == Some(n) && n >= 1 {
      var digits := if s[0] == '+' || s[0] == '-' then s[1..] else s;
      assert s[0] == '+' ==> s == "+" + digits;
      assert Counts(digits, n);
    }
  }

  /** Exactly the words that say something, and what they say. */
  lemma WordExactly(word: string, u: PeriodUnit, n: int)
    requires word != ""
    ensures RuleOf(word) == KeepLast(n) <==> Numeral(word, n)
    ensures RuleOf(word) == KeepPeriods(u, n) <==> Letter(word[|word| - 1], u) && Numeral(word[..|word| - 1], n)
  {
    var i := |word| - 1;
    AtoiNumeral(word, n);
    AtoiNumeral(word[..i], n);
    if Letter(word[i], u) { NoNumberEndsInALetter(word); }
  }

  lemma NoNumberEndsInALetter(word: string)
    requires word != "" && !IsDigit(word[|word| - 1])
    ensures Atoi(word) == None
  {
    var signed := word[0] == '+' || word[0] == '-';
    var digits := if signed then word[1..] else word;
    assert digits != "" ==> digits[|digits| - 1] == word[|word| - 1];
  }

  lemma OneRule(word: string)
    requires word != "" && Spaceless(word)
    ensures var rule := RuleOf(word); Parse(word) == if rule.Bad? then None else Some(Merge(NO_RULE, rule))
  {
    FieldsOfJoin([word]);
    assert JoinSpaced([word]) == word;
    MergeNext(NO_RULE, Rules([word]), 0);
    assert Rules([word])[0..] == Rules([word]) && Rules([word])[1..] == [];
  }

  /** A keep of one word, as it is written. */
  lemma OneWord(digits: string, n: int, c: char, u: PeriodUnit)
    requires Counts(digits, n) && Letter(c, u)
    ensures Parse(digits) == Some(Retention(n, []))
    ensures Parse(digits + [c]) == Some(Retention(0, [Period(u, n)]))
  {
    var w := digits + [c];
    assert w[..|w| - 1] == digits && Numeral(digits, n);
    assert Spaceless(digits) && Spaceless(w);
    WordExactly(digits, u, n);
    WordExactly(w, u, n);
    OneRule(digits);
    OneRule(w);
    assert [] + [Period(u, n)] == [Period(u, n)];
  }

  // ---------------------------------------------------------------- printing

  function PeriodWord(p: Period): string {
    Itoa(p.count) + [UnitChar(p.unit)]
  }

  function PeriodWords(periods: seq<Period>): seq<string> {
    if periods == [] then [] else [PeriodWord(periods[0])] + PeriodWords(periods[1..])
  }

  /** Retention.String */
  function Print(r: Retention): string {
    JoinSpaced((if r.last > 0 then [Itoa(r.last)] else []) + PeriodWords(r.periods))
  }

  lemma NextWord(l: seq<string>, periods: seq<Period>, k: nat)
    requires k < |periods|
    ensures l + PeriodWords(periods[k..]) == l + [PeriodWord(periods[k])] + PeriodWords(periods[k + 1..])
  {
    assert periods[k..][0] == periods[k] && periods[k..][1..] == periods[k + 1..];
  }

  method PrintRetention(r: Retention) returns (s: string)
    ensures s == Print(r)
  {
    var l: seq<string> := [];
    if r.last > 0 {
      l := l + [Itoa(r.last)];
    }
    ghost var words := l + PeriodWords(r.periods);
    assert r.periods[0..] == r.periods;
    for k := 0 to |r.periods|
      invariant words == l + PeriodWords(r.periods[k..])
    {
      NextWord(l, r.periods, k);
      l := l + [PeriodWord(r.periods[k])];
    }
    assert words == l;
    return JoinSpaced(l);
  }

  ghost predicate AreWords(words: seq<string>) {
    forall i :: 0 <= i < |words| ==> words[i] != "" && Spaceless(words[i])
  }

  lemma NumberWord(n: int)
    requires 0 < n <= MAX_INT
    ensures AreWords([Itoa(n)]) && Rules([Itoa(n)]) == [KeepLast(n)]
  {
    DecimalValue(n);
    AtoiItoa(n);
  }

  lemma DigitsThenUnit(w: string, digits: string, u: PeriodUnit)
    requires w == digits + [UnitChar(u)]
    requires digits != "" && AllDigits(digits) && 1 <= Value(digits) <= MAX_INT
    ensures w != "" && Spaceless(w) && RuleOf(w) == KeepPeriods(u, Value(digits))
  {
    var n := |digits|;
    assert IsDigit(w[0]) && !IsDigit(w[n]);
    assert w[..n] == digits;
    AtoiOfDigits(digits);
  }

  lemma PeriodWordRule(p: Period)
    requires 0 < p.count <= MAX_INT
    ensures PeriodWord(p) != "" && Spaceless(PeriodWord(p)) && RuleOf(PeriodWord(p)) == KeepPeriods(p.unit, p.count)
  {
    DecimalValue(p.count);
    DigitsThenUnit(PeriodWord(p), Decimal(p.count), p.unit);
  }

  function PeriodRules(periods: seq<Period>): (rules: seq<Rule>)
    ensures Bad !in rules
  {
    if periods == [] then [] else [KeepPeriods(periods[0].unit, periods[0].count)] + PeriodRules(periods[1..])
  }

  lemma {:induction false} PeriodWordsSay(periods: seq<Period>)
    requires forall k :: 0 <= k < |periods| ==> 0 < periods[k].count <= MAX_INT
    ensures AreWords(PeriodWords(periods)) && Rules(PeriodWords(periods)) == PeriodRules(periods)
  {
    if periods == [] {
    } else {
      PeriodWordRule(periods[0]);
      PeriodWordsSay(periods[1..]);
      assert PeriodWords(periods)[1..] == PeriodWords(periods[1..]);
    }
  }

  lemma {:induction false} RulesConcat(a: seq<string>, b: seq<string>)
    requires AreWords(a) && AreWords(b)
    ensures AreWords(a + b) && Rules(a + b) == Rules(a) + Rules(b)
  {
  }

  lemma NewUnit(r: Retention, p: Period)
    requires forall k :: 0 <= k < |r.periods| ==> r.periods[k].unit != p.unit
    ensures Merge(r, KeepPeriods(p.unit, p.count)) == r.(periods := r.periods + [p])
  {
  }

  lemma {:induction false} MergePeriodRules(r: Retention, periods: seq<Period>)
    requires forall j, k :: 0 <= j < k < |r.periods + periods| ==>
               (r.periods + periods)[j].unit != (r.periods + periods)[k].unit
    ensures MergeAll(r, PeriodRules(periods)) == Some(r.(periods := r.periods + periods))
    decreases |periods|
  {
    if periods == [] {
      assert r.periods + periods == r.periods;
    } else {
      var all, n := r.periods + periods, |r.periods|;
      assert all[n] == periods[0] && forall k :: 0 <= k < n ==> all[k] == r.periods[k];
      NewUnit(r, periods[0]);
      assert all == r.periods + [periods[0]] + periods[1..];
      MergePeriodRules(r.(periods := r.periods + [periods[0]]), periods[1..]);
      assert PeriodRules(periods)[1..] == PeriodRules(periods[1..]);
    }
  }

  lemma PrintSays(r: Retention)
    requires r.Parsed() && FitsInt(r)
    ensures Rules(Fields(Print(r))) == (if r.last > 0 then [KeepLast(r.last)] else []) + PeriodRules(r.periods)
  {
    var head := if r.last > 0 then [Itoa(r.last)] else [];
    if r.last > 0 { NumberWord(r.last); }
    PeriodWordsSay(r.periods);
    RulesConcat(head, PeriodWords(r.periods));
    FieldsOfJoin(head + PeriodWords(r.periods));
  }

  lemma MergePrinted(r: Retention, rules: seq<Rule>)
    requires r.Parsed()
    requires rules == (if r.last > 0 then [KeepLast(r.last)] else []) + PeriodRules(r.periods)
    ensures MergeAll(NO_RULE, rules) == Some(r)
  {
    if r.last > 0 {
      assert rules[0] == KeepLast(r.last) && rules[1..] == PeriodRules(r.periods);
    } else {
      assert rules == PeriodRules(r.periods);
    }
    assert [] + r.periods == r.periods;
    MergePeriodRules(Retention(r.last, []), r.periods);
  }

  /** Printing a retention a keep can say and parsing the text gives it back. */
  lemma ParseOfPrint(r: Retention)
    requires r.Parsed() && FitsInt(r)
    ensures Parse(Print(r)) == Some(r)
  {
    PrintSays(r);
    MergePrinted(r, Rules(Fields(Print(r))));
  }

  /** A retention is given back by its text exactly when it is one a keep can say. */
  lemma RoundTrip(r: Retention)
    ensures Parse(Print(r)) == Some(r) <==> r.Parsed() && FitsInt(r)
  {
    Meaning(Print(r));
    if r.Parsed() && FitsInt(r) { ParseOfPrint(r); }
  }

  /** Parsing, printing and parsing again is parsing once, on every text accepted. */
  lemma ParsePrintParse(s: string)
    requires Parse(s).Some?
    ensures Parse(Print(Parse(s).value)) == Parse(s)
  {
    Meaning(s);
    ParseOfPrint(Parse(s).value);
  }
}
