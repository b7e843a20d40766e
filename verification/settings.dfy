/** The configuration of MailProcessor: a flat key/value property table, the
    lookups the engine performs on it, and the indexed rule keys
    `header<N>`, `pattern<N>`, `destination<N>` that the rule walk reads. */
module Settings {

  datatype Option<T> = None | Some(value: T)

  /** A loaded properties file. */
  type Properties = map<string, string>

  /** `getSetting(key)`: `None` stands for Java's `null`. */
  function GetSetting(s: Properties, key: string): (r: Option<string>)
    ensures r.Some? <==> key in s
    ensures r.Some? ==> r.value == s[key]
  {
    if key in s then Some(s[key]) else None
  }

  /** `getSetting(key, def)`: the stored value, or the default when absent. */
  function GetSettingOr(s: Properties, key: string, def: string): (r: string)
    ensures key in s ==> r == s[key]
    ensures key !in s ==> r == def
  {
    match GetSetting(s, key)
    case None => def
    case Some(v) => v
  }

  /** `getBooleanSetting(key)`: only the exact text "true" is true. */
  function GetBooleanSetting(s: Properties, key: string): (b: bool)
    ensures b <==> key in s && s[key] == "true"
  {
    match GetSetting(s, key)
    case None => false
    case Some(v) => v == "true"
  }

  // ---------------------------------------------------------------------
  // Decimal rendering of the rule index, as in Java's `"header" + idx`

  function DigitChar(d: nat): (c: char)
    requires d < 10
  {
    (('0' as int) + d) as char
  }

  /** The decimal text of `n`, without leading zeros. */
  function Decimal(n: nat): (r: string)
    ensures |r| >= 1
  {
    if n < 10 then [DigitChar(n)] else Decimal(n / 10) + [DigitChar(n % 10)]
  }

  /** Reads a string of decimal digits back as a number. */
  function ParseDecimal(s: string): int
  {
    if s == [] then 0 else ParseDecimal(s[..|s| - 1]) * 10 + ((s[|s| - 1] as int) - ('0' as int))
  }

  lemma {:induction false} ParseDecimalOfDecimal(n: nat)
    ensures ParseDecimal(Decimal(n)) == n
    decreases n
  {
    var r := Decimal(n);
    if n >= 10 {
      ParseDecimalOfDecimal(n / 10);
      assert r[..|r| - 1] == Decimal(n / 10);
    }
  }

  lemma {:induction false} DecimalInjective(a: nat, b: nat)
    ensures Decimal(a) == Decimal(b) ==> a == b
  {
    ParseDecimalOfDecimal(a);
    ParseDecimalOfDecimal(b);
  }

  /** The setting names of rule N: the kind of setting followed by N in
      decimal. */
  function HeaderKey(n: nat): (k: string)
    ensures |k| > 6 && k[..6] == "header"
  {
    "header" + Decimal(n)
  }

  function PatternKey(n: nat): (k: string)
    ensures |k| > 7 && k[..7] == "pattern"
  {
    "pattern" + Decimal(n)
  }

  function DestinationKey(n: nat): (k: string)
    ensures |k| > 11 && k[..11] == "destination"
  {
    "destination" + Decimal(n)
  }

  lemma {:induction false} HeaderKeyInjective(a: nat, b: nat)
    ensures HeaderKey(a) == HeaderKey(b) ==> a == b
  {
    if HeaderKey(a) == HeaderKey(b) {
      assert Decimal(a) == HeaderKey(a)[6..];
      assert Decimal(b) == HeaderKey(b)[6..];
      DecimalInjective(a, b);
    }
  }

  /** Each rule has its own pattern and destination settings. */
  lemma {:induction false} RuleKeysInjective(a: nat, b: nat)
    ensures PatternKey(a) == PatternKey(b) ==> a == b
    ensures DestinationKey(a) == DestinationKey(b) ==> a == b
  {
    if PatternKey(a) == PatternKey(b) {
      assert Decimal(a) == PatternKey(a)[7..];
      assert Decimal(b) == PatternKey(b)[7..];
      DecimalInjective(a, b);
    }
    if DestinationKey(a) == DestinationKey(b) {
      assert Decimal(a) == DestinationKey(a)[11..];
      assert Decimal(b) == DestinationKey(b)[11..];
      DecimalInjective(a, b);
    }
  }

  /** Keys of different kinds never coincide, whatever the rule numbers: a
      header setting is never read as a pattern or a destination. */
  lemma {:induction false} RuleKeysDisjoint(a: nat, b: nat)
    ensures HeaderKey(a) != PatternKey(b)
    ensures HeaderKey(a) != DestinationKey(b)
    ensures PatternKey(a) != DestinationKey(b)
  {
    assert HeaderKey(a)[0] == 'h' && PatternKey(b)[0] == 'p' && DestinationKey(b)[0] == 'd';
    assert PatternKey(a)[0] == 'p';
  }

  // ---------------------------------------------------------------------
  // Where the rule walk stops

  /** Every index 1..n has a `header<k>` setting. */
  predicate HeadersUpTo(s: Properties, n: nat)
  {
    forall k :: 1 <= k <= n ==> HeaderKey(k) in s
  }

  ghost function HeaderKeysUpTo(n: nat): set<string>
  {
    set k | 1 <= k <= n :: HeaderKey(k)
  }

  lemma {:induction false} HeaderKeysUpToSize(n: nat)
    ensures |HeaderKeysUpTo(n)| == n
  {
    if n > 0 {
      HeaderKeysUpToSize(n - 1);
      assert HeaderKeysUpTo(n) == HeaderKeysUpTo(n - 1) + {HeaderKey(n)};
      forall k | 1 <= k <= n - 1
        ensures HeaderKey(k) != HeaderKey(n)
      {
        HeaderKeyInjective(k, n);
      }
      assert HeaderKey(n) !in HeaderKeysUpTo(n - 1);
    }
  }

  lemma {:induction false} SubsetSize(a: set<string>, b: set<string>)
    requires a <= b
    ensures |a| <= |b|
    decreases a
  {
    if a != {} {
      var x :| x in a;
      SubsetSize(a - {x}, b - {x});
    }
  }

  /** A finite table holds at most |s| consecutive `header<k>` keys. */
  lemma {:induction false} HeadersBounded(s: Properties, n: nat)
    requires HeadersUpTo(s, n)
    ensures n <= |s|
  {
    HeaderKeysUpToSize(n);
    SubsetSize(HeaderKeysUpTo(n), s.Keys);
  }

  /** The first index from `n` on with no `header<k>` setting. */
  function FirstGap(s: Properties, n: nat): (g: nat)
    requires 1 <= n && HeadersUpTo(s, n - 1)
    ensures n <= g && HeadersUpTo(s, g - 1) && HeaderKey(g) !in s
    decreases |s| + 1 - n
  {
    if HeaderKey(n) !in s then n
    else
      HeadersBounded(s, n);
      FirstGap(s, n + 1)
  }

  /** The number K of rules the walk evaluates: `header1`..`header<K>` are all
      set and `header<K+1>` is not. */
  function RuleCount(s: Properties): (k: nat)
    ensures HeadersUpTo(s, k) && HeaderKey(k + 1) !in s
  {
    FirstGap(s, 1) - 1
  }

  /** One rule: the header to read, the pattern it must fully match and the
      folder to copy into, with its position N in the configuration. */
  datatype Rule = Rule(index: nat, header: string, pattern: string, destination: string)

  /** Every rule the walk reaches has its `pattern<N>` and `destination<N>`. */
  predicate RulesComplete(s: Properties)
  {
    forall k :: 1 <= k <= RuleCount(s) ==> PatternKey(k) in s && DestinationKey(k) in s
  }

  function RuleAt(s: Properties, k: nat): (r: Rule)
    requires RulesComplete(s) && 1 <= k <= RuleCount(s)
  {
    Rule(k, s[HeaderKey(k)], s[PatternKey(k)], s[DestinationKey(k)])
  }

  /** The rules evaluated for every message, in index order 1..K. */
  function Rules(s: Properties): (rs: seq<Rule>)
    requires RulesComplete(s)
    ensures |rs| == RuleCount(s)
  {
    seq(RuleCount(s), i requires 0 <= i < RuleCount(s) => RuleAt(s, i + 1))
  }

  /** Whether the walk goes on past rule idx - 1, and which rule it reads. */
  lemma {:induction false} RuleWalkStep(s: Properties, idx: nat)
    requires RulesComplete(s) && 1 <= idx <= RuleCount(s) + 1
    ensures HeaderKey(idx) in s <==> idx <= RuleCount(s)
    ensures HeaderKey(idx) in s ==>
      Rules(s)[idx - 1] == Rule(idx, s[HeaderKey(idx)], s[PatternKey(idx)], s[DestinationKey(idx)])
  {
  }

  /** A gap at any index g cuts the rule set off before g: no rule past a
      missing `header<g>` is ever evaluated. */
  lemma {:induction false} RuleCountGap(s: Properties, g: nat)
    requires 1 <= g && HeaderKey(g) !in s
    ensures RuleCount(s) < g
  {
  }

  /** Rules 1 and 3 configured, rule 2 missing: only rule 1 is evaluated. */
  lemma {:induction false} GapExample()
    ensures var s := map["header1" := "Subject", "pattern1" := "Spam.*", "destination1" := "Junk",
                         "header3" := "From", "pattern3" := ".*", "destination3" := "All"];
            RuleCount(s) == 1
  {
    var s := map["header1" := "Subject", "pattern1" := "Spam.*", "destination1" := "Junk",
                 "header3" := "From", "pattern3" := ".*", "destination3" := "All"];
    assert DigitChar(1) == '1' && DigitChar(2) == '2';
    assert HeaderKey(1) == "header1" && HeaderKey(2) == "header2";
    assert HeaderKey(1) in s && HeaderKey(2) !in s;
  }
}
