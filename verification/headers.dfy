/** Header access for the rule engine: the folding clean-up applied to each
    header value before matching, the full-match test against a rule's
    pattern, and the log-line formatter `headerFormat`. */
module Headers {
  import opened Settings

  /** The regular-expression engine behind Java's `String.matches`: does the
      whole value match the pattern? It is left uninterpreted. */
  type Matcher = (string, string) -> bool

  // ---------------------------------------------------------------------
  // Normalisation: every run of CR, LF and TAB becomes one space

  predicate IsFoldChar(c: char)
  {
    c == '\n' || c == '\r' || c == '\t'
  }

  predicate NoFoldChars(s: string)
  {
    forall i :: 0 <= i < |s| ==> !IsFoldChar(s[i])
  }

  /** The normalisation of `s` read left to right, where `inRun` says whether
      the text before `s` ended inside a run of fold characters: the first
      fold character of a run gives one space and the rest of the run gives
      nothing. */
  function NormalizeFrom(s: string, inRun: bool): (r: string)
    ensures |r| <= |s|
  {
    if s == [] then []
    else if IsFoldChar(s[0]) then (if inRun then [] else [' ']) + NormalizeFrom(s[1..], true)
    else [s[0]] + NormalizeFrom(s[1..], false)
  }

  /** `value.replaceAll("[\\n\\r\\t]+", " ")`. */
  function Normalize(s: string): (r: string)
    ensures |r| <= |s|
  {
    NormalizeFrom(s, false)
  }

  lemma {:induction false} NormalizeFromNoFoldChars(s: string, inRun: bool)
    ensures NoFoldChars(NormalizeFrom(s, inRun))
    decreases |s|
  {
    if s != [] {
      NormalizeFromNoFoldChars(s[1..], IsFoldChar(s[0]));
      var head := if IsFoldChar(s[0]) then (if inRun then [] else [' ']) else [s[0]];
      var tail := NormalizeFrom(s[1..], IsFoldChar(s[0]));
      assert NormalizeFrom(s, inRun) == head + tail;
      assert NoFoldChars(head);
    }
  }

  /** The result holds no CR, LF or TAB any more. */
  lemma {:induction false} NormalizeNoFoldChars(s: string)
    ensures NoFoldChars(Normalize(s))
  {
    NormalizeFromNoFoldChars(s, false);
  }

  /** A character that is not a fold character is kept and ends any run. */
  lemma {:induction false} NormalizeCons(x: char, s: string, inRun: bool)
    requires !IsFoldChar(x)
    ensures NormalizeFrom([x] + s, inRun) == [x] + NormalizeFrom(s, false)
  {
    assert ([x] + s)[0] == x && ([x] + s)[1..] == s;
  }

  /** Where the right-hand part starts with a character that is not a fold
      character, the normalisation splits into two independent halves. */
  lemma {:induction false} NormalizeAppend(a: string, t: string, inRun: bool)
    requires t != [] && !IsFoldChar(t[0])
    ensures NormalizeFrom(a + t, inRun) == NormalizeFrom(a, inRun) + NormalizeFrom(t, false)
    decreases |a|
  {
    if a == [] {
      assert a + t == t;
    } else {
      assert (a + t)[0] == a[0] && (a + t)[1..] == a[1..] + t;
      NormalizeAppend(a[1..], t, IsFoldChar(a[0]));
    }
  }

  /** A non-empty run of fold characters gives one space, or nothing when a
      run was already open, and leaves a run open. */
  lemma {:induction false} NormalizeRunFrom(run: string, b: string, inRun: bool)
    requires |run| > 0 && forall i :: 0 <= i < |run| ==> IsFoldChar(run[i])
    ensures NormalizeFrom(run + b, inRun) == (if inRun then [] else [' ']) + NormalizeFrom(b, true)
    decreases |run|
  {
    assert (run + b)[0] == run[0] && (run + b)[1..] == run[1..] + b;
    if |run| == 1 {
      assert run[1..] + b == b;
    } else {
      NormalizeRunFrom(run[1..], b, true);
    }
  }

  /** Text that starts outside a run is normalised the same whether or not
      a run was open before it. */
  lemma {:induction false} NormalizeRunClosed(b: string)
    requires b == [] || !IsFoldChar(b[0])
    ensures NormalizeFrom(b, true) == NormalizeFrom(b, false)
  {
  }

  /** A non-empty run made only of fold characters becomes a single space. */
  lemma {:induction false} NormalizeRun(run: string)
    requires |run| > 0 && forall i :: 0 <= i < |run| ==> IsFoldChar(run[i])
    ensures Normalize(run) == " "
  {
    NormalizeRunFrom(run, [], false);
    assert run + [] == run;
  }

  /** A maximal leading run becomes one space in front of the rest. */
  lemma {:induction false} NormalizeLeadingRun(run: string, b: string)
    requires b == [] || !IsFoldChar(b[0])
    requires |run| > 0 && forall i :: 0 <= i < |run| ==> IsFoldChar(run[i])
    ensures Normalize(run + b) == " " + Normalize(b)
  {
    NormalizeRunFrom(run, b, false);
    NormalizeRunClosed(b);
  }

  /** A character that is not a fold character is kept, in place, and splits
      the normalisation into two independent halves. */
  lemma {:induction false} NormalizeSplit(a: string, c: char, b: string)
    requires !IsFoldChar(c)
    ensures Normalize(a + [c] + b) == Normalize(a) + [c] + Normalize(b)
  {
    assert a + [c] + b == a + ([c] + b);
    NormalizeAppend(a, [c] + b, false);
    NormalizeCons(c, b, false);
  }

  /** After a character that is not a fold character, the normalisation
      starts afresh: the two sides are normalised independently. */
  lemma {:induction false} NormalizeAfterKept(a: string, rest: string)
    requires a != [] && !IsFoldChar(a[|a| - 1])
    ensures Normalize(a + rest) == Normalize(a) + Normalize(rest)
  {
    var a', last := a[..|a| - 1], a[|a| - 1];
    assert a == a' + [last];
    NormalizeSplit(a', last, rest);
    NormalizeSplit(a', last, []);
    assert a' + [last] + [] == a;
  }

  /** A run of fold characters after a kept character becomes one space. */
  lemma {:induction false} NormalizeRunAfterKept(a: string, run: string, b: string)
    requires a != [] && !IsFoldChar(a[|a| - 1])
    requires b == [] || !IsFoldChar(b[0])
    requires |run| > 0 && forall i :: 0 <= i < |run| ==> IsFoldChar(run[i])
    ensures Normalize(a + run + b) == Normalize(a) + " " + Normalize(b)
  {
    assert a + run + b == a + (run + b);
    NormalizeAfterKept(a, run + b);
    NormalizeLeadingRun(run, b);
    assert Normalize(a) + (" " + Normalize(b)) == Normalize(a) + " " + Normalize(b);
  }

  /** A maximal run of fold characters between two other characters (or the
      ends of the value) becomes exactly one space. */
  lemma {:induction false} NormalizeRunSplit(a: string, run: string, b: string)
    requires a == [] || !IsFoldChar(a[|a| - 1])
    requires b == [] || !IsFoldChar(b[0])
    requires |run| > 0 && forall i :: 0 <= i < |run| ==> IsFoldChar(run[i])
    ensures Normalize(a + run + b) == Normalize(a) + " " + Normalize(b)
  {
    if a == [] {
      assert a + run + b == run + b;
      NormalizeLeadingRun(run, b);
      assert Normalize(a) == [];
    } else {
      NormalizeRunAfterKept(a, run, b);
    }
  }

  lemma {:induction false} NormalizeFromIdentity(s: string, inRun: bool)
    requires NoFoldChars(s)
    ensures NormalizeFrom(s, inRun) == s
    decreases |s|
  {
    if s != [] {
      assert NoFoldChars(s[1..]) by {
        forall i | 0 <= i < |s[1..]|
          ensures !IsFoldChar(s[1..][i])
        {
          assert s[1..][i] == s[i + 1];
        }
      }
      NormalizeFromIdentity(s[1..], false);
      assert [s[0]] + s[1..] == s;
    }
  }

  /** A value without fold characters is left exactly as it is. */
  lemma {:induction false} NormalizeIdentity(s: string)
    requires NoFoldChars(s)
    ensures Normalize(s) == s
  {
    NormalizeFromIdentity(s, false);
  }

  lemma {:induction false} NormalizeIdempotent(s: string)
    ensures Normalize(Normalize(s)) == Normalize(s)
  {
    NormalizeNoFoldChars(s);
    NormalizeIdentity(Normalize(s));
  }

  /** A header value folded once, two fold-free lines joined by a run of
      CR, LF and TAB, reads as those two lines joined by one space. */
  lemma {:induction false} NormalizeFolded(a: string, run: string, b: string)
    requires NoFoldChars(a) && NoFoldChars(b) && a != [] && b != []
    requires |run| > 0 && forall i :: 0 <= i < |run| ==> IsFoldChar(run[i])
    ensures Normalize(a + run + b) == a + " " + b
  {
    NormalizeRunSplit(a, run, b);
    NormalizeIdentity(a);
    NormalizeIdentity(b);
  }

  /** A value folded with a line feed reads as one line, and so does one
      folded with a mixed run of CR, LF and TAB. */
  lemma {:induction false} NormalizeExample(s: string, t: string)
    requires s == "Foo\nbar" && t == "Foo\r\n\tbar"
    ensures Normalize(s) == "Foo bar" && Normalize(t) == "Foo bar"
  {
    NormalizeFolded("Foo", "\n", "bar");
    assert "Foo" + "\n" + "bar" == s;
    NormalizeFolded("Foo", "\r\n\t", "bar");
    assert "Foo" + "\r\n\t" + "bar" == t;
  }

  // ---------------------------------------------------------------------
  // Reading and matching a header

  /** A message's headers: name to the values in the order they appear. */
  type HeaderMap = map<string, seq<string>>

  /** What `Message.getHeader(name)` gives: `null`, the values, or a
      `MessagingException`. */
  datatype HeaderRead = Absent | Values(values: seq<string>) | ReadError

  function ReadHeader(h: HeaderMap, name: string, fails: bool): (r: HeaderRead)
    ensures r.Values? ==> name in h && r.values == h[name]
    ensures r.ReadError? <==> fails
    ensures !fails ==> (r.Values? <==> name in h)
  {
    if fails then ReadError else if name in h then Values(h[name]) else Absent
  }

  /** The rule fires: some value of the header, once normalised, matches the
      whole pattern. */
  predicate HeaderMatches(read: HeaderRead, pattern: string, fullMatch: Matcher): (b: bool)
    ensures b ==> read.Values? && |read.values| > 0
  {
    read.Values? && exists i :: 0 <= i < |read.values| && fullMatch(Normalize(read.values[i]), pattern)
  }

  /** `headerMatch`: an absent header and an exception while reading it both
      mean "no match"; otherwise the values are tried in order and the first
      that matches ends the search. */
  method HeaderMatch(read: HeaderRead, pattern: string, fullMatch: Matcher) returns (matched: bool)
    ensures read.Absent? || read.ReadError? ==> !matched
    ensures read.Values? ==>
      (matched <==> exists i :: 0 <= i < |read.values| && fullMatch(Normalize(read.values[i]), pattern))
  {
    match read
    case ReadError =>
      matched := false;
    case Absent =>
      matched := false;
    case Values(header) =>
      var i := 0;
      while i < |header|
        invariant 0 <= i <= |header|
        invariant forall j :: 0 <= j < i ==> !fullMatch(Normalize(header[j]), pattern)
      {
        var hi := Normalize(header[i]);
        if fullMatch(hi, pattern) {
          matched := true;
          return;
        }
        i := i + 1;
      }
      matched := false;
  }

  // ---------------------------------------------------------------------
  // Formatting a header for the log

  /** The values joined with a folding line break, "\n\t". */
  function Join(vs: seq<string>): (r: string)
    ensures |vs| > 0 ==> vs[0] <= r
  {
    if |vs| == 0 then ""
    else if |vs| == 1 then vs[0]
    else Join(vs[..|vs| - 1]) + "\n\t" + vs[|vs| - 1]
  }

  function TotalLength(vs: seq<string>): nat
  {
    if vs == [] then 0 else TotalLength(vs[..|vs| - 1]) + |vs[|vs| - 1]|
  }

  /** Joining two non-empty lists puts exactly one separator between them. */
  lemma {:induction false} JoinAppend(a: seq<string>, b: seq<string>)
    requires |a| > 0 && |b| > 0
    ensures Join(a + b) == Join(a) + "\n\t" + Join(b)
    decreases |b|
  {
    if |b| == 1 {
      assert (a + b)[..|a + b| - 1] == a;
    } else {
      var b' := b[..|b| - 1];
      assert (a + b)[..|a + b| - 1] == a + b';
      assert b[..|b| - 1] == b';
      JoinAppend(a, b');
    }
  }

  /** The joined text is every value plus two separator characters between
      neighbours. */
  lemma {:induction false} JoinLength(vs: seq<string>)
    requires |vs| > 0
    ensures |Join(vs)| == TotalLength(vs) + 2 * (|vs| - 1)
    decreases |vs|
  {
    if |vs| > 1 {
      JoinLength(vs[..|vs| - 1]);
      assert vs[..|vs| - 1][..|vs| - 2] == vs[..|vs| - 2];
    } else {
      assert vs[..0] == [];
    }
  }

  /** `headerFormat(prefix, values)`: the prefix alone when the values are
      `null` or empty, else the prefix followed by the joined values. */
  method HeaderFormat(headerField: string, header: Option<seq<string>>) returns (result: string)
    ensures header.None? || header.value == [] ==> result == headerField
    ensures header.Some? ==> result == headerField + Join(header.value)
  {
    var values := if header.None? then [] else header.value;
    result := headerField;
    for i := 0 to |values|
      invariant result == headerField + Join(values[..i])
    {
      assert values[..i + 1][..i] == values[..i];
      if i > 0 {
        result := result + "\n\t";
      }
      result := result + values[i];
    }
    assert values[..|values|] == values;
  }
}
