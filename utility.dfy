/** Name refinement and the fixed type tables of `Utility`.

    `Utility.TurnOffRefineEntityName` is a mutable static flag read by
    `RefineEntityName`; here it is the explicit parameter `turnOff`. A call
    that throws (the out-of-range `Substring` on a trailing underscore) yields
    `None`. */
module Utility {
  import opened Wrappers
  import opened Text

  // ---------------------------------------------------------------------------
  // Suffix rewriting
  // ---------------------------------------------------------------------------

  /** The custom-field suffix rewrites, in the order they are applied. */
  const RemovePatterns: seq<(string, string)> := [("_1__c", "C"), ("_s__c", "C"), ("__c", "C")]

  predicate ValidPatterns(patterns: seq<(string, string)>) {
    forall k | 0 <= k < |patterns| :: '_' in patterns[k].0
  }

  /** Applies `patterns` one after the other, each replacing all its occurrences. */
  function ApplyPatterns(name: string, patterns: seq<(string, string)>): string
    requires ValidPatterns(patterns)
  {
    if patterns == [] then name
    else
      var last := patterns[|patterns| - 1];
      Replace(ApplyPatterns(name, patterns[..|patterns| - 1]), last.0, last.1)
  }

  /** The name after the `foreach` over the suffix patterns. */
  function StripSuffixes(name: string): string {
    ApplyPatterns(name, RemovePatterns)
  }

  /** When every pattern contains a character the name lacks, no pattern
      occurs and the name is not rewritten. */
  lemma {:induction false} ApplyPatternsWithout(name: string, patterns: seq<(string, string)>, c: char)
    requires ValidPatterns(patterns)
    requires forall k | 0 <= k < |patterns| :: c in patterns[k].0
    requires c !in name
    ensures ApplyPatterns(name, patterns) == name
  {
    if patterns != [] {
      ApplyPatternsWithout(name, patterns[..|patterns| - 1], c);
      var last := patterns[|patterns| - 1];
      ReplaceAbsent(name, last.0, last.1, c);
    }
  }

  /** A string without an underscore is untouched by every pattern step. */
  lemma {:induction false} StripSuffixesUnderscoreFree(name: string)
    requires '_' !in name
    ensures StripSuffixes(name) == name
  {
    ApplyPatternsWithout(name, RemovePatterns, '_');
  }

  /** Unfolds the three pattern steps of `StripSuffixes`. */
  lemma StripSuffixesSteps(name: string)
    ensures StripSuffixes(name) == Replace(Replace(Replace(name, "_1__c", "C"), "_s__c", "C"), "__c", "C")
  {
    var p1, p2 := RemovePatterns[..1], RemovePatterns[..2];
    assert p1[..0] == [] && p2[..1] == p1 && RemovePatterns[..2] == p2;
    assert ApplyPatterns(name, p1) == Replace(name, "_1__c", "C");
    assert ApplyPatterns(name, p2) == Replace(ApplyPatterns(name, p1), "_s__c", "C");
  }

  /** The patterns are tried in their written order, so `_1__c` is consumed whole
      before `__c` could match its tail: `X_1__c` becomes `XC`, not `X1C`. */
  lemma SuffixOrder()
    ensures StripSuffixes("X_1__c") == "XC"
  {
    StripSuffixesSteps("X_1__c");
    assert Replace("X_1__c", "_1__c", "C") == "XC" by {
      assert "X_1__c"[0] != "_1__c"[0];
      assert "X_1__c"[1..] == "_1__c";
      assert Replace("_1__c", "_1__c", "C") == "C" + Replace([], "_1__c", "C");
    }
    ReplaceAbsent("XC", "_s__c", "C", '_');
    ReplaceAbsent("XC", "__c", "C", '_');
  }

  // ---------------------------------------------------------------------------
  // Underscore removal
  // ---------------------------------------------------------------------------

  /** Puts `p` in front of a successful result. */
  function Prepend(p: string, o: Option<string>): Option<string> {
    if o.None? then None else Some(p + o.value)
  }

  /** The `while (true)` loop over `IndexOf('_')`, one pass per call: the first
      underscore is removed and the character after it upper-cased. When the
      underscore is the last character, `Substring(index + 1, 1)` is out of range. */
  function DropUnderscores(s: string): Option<string>
    decreases |s|
  {
    var index := IndexOf(s, '_');
    if index < 0 then Some(s)
    else if index + 1 == |s| then None
    else DropUnderscores(Splice(s, index))
  }

  /** The name after one pass at the underscore at `index`: the underscore and
      the character after it become that character upper-cased. */
  function Splice(s: string, index: nat): (t: string)
    requires index + 1 < |s|
  {
    s[..index] + [ToUpper(s[index + 1])] + s[index + 2..]
  }

  /** Reference definition of the same transform as one left-to-right scan: an
      underscore followed by another is dropped, an underscore followed by a
      character `c` becomes `ToUpper(c)`, and a final underscore fails. */
  function PascalScan(s: string): Option<string>
  {
    if s == [] then Some([])
    else if s[0] != '_' then Prepend([s[0]], PascalScan(s[1..]))
    else if |s| == 1 then None
    else if s[1] == '_' then PascalScan(s[1..])
    else Prepend([ToUpper(s[1])], PascalScan(s[2..]))
  }

  /** A pass inside `t` is the same pass inside `p + t`. */
  lemma SpliceAfterPrefix(p: string, t: string, j: nat)
    requires j + 1 < |t|
    ensures Splice(p + t, |p| + j) == p + Splice(t, j)
  {
    assert (p + t)[..|p| + j] == p + t[..j];
    assert (p + t)[|p| + j + 1] == t[j + 1];
    assert (p + t)[|p| + j + 2..] == t[j + 2..];
  }

  /** A leading stretch without underscores passes through the loop unchanged. */
  lemma {:induction false} DropUnderscoresAfterPrefix(p: string, t: string)
    requires '_' !in p
    ensures DropUnderscores(p + t) == Prepend(p, DropUnderscores(t))
    decreases |t|
  {
    IndexOfAfterPrefix(p, t, '_');
    var j := IndexOf(t, '_');
    var s := p + t;
    DropUnderscoresPass(t);
    if j < 0 {
      DropUnderscoresPass(s);
    } else if j + 1 == |t| {
      DropUnderscoresPass(s);
    } else {
      var t' := Splice(t, j);
      var i := |p| + j;
      assert IndexOf(s, '_') == i && i + 1 < |s|;
      assert |t'| < |t|;
      DropUnderscoresPass(s);
      var next := Splice(s, i);
      SpliceAfterPrefix(p, t, j);
      assert next == p + t';
      DropUnderscoresAfterPrefix(p, t');
    }
  }

  /** The pass-by-pass loop and the single scan agree on every input. */
  lemma {:induction false} DropUnderscoresIsPascalScan(s: string)
    ensures DropUnderscores(s) == PascalScan(s)
    decreases |s|
  {
    if s == [] {
    } else if s[0] != '_' {
      assert s == [s[0]] + s[1..];
      DropUnderscoresAfterPrefix([s[0]], s[1..]);
      DropUnderscoresIsPascalScan(s[1..]);
    } else if |s| == 1 {
    } else if s[1] == '_' {
      assert s[..0] + [ToUpper(s[1])] + s[2..] == s[1..];
      DropUnderscoresIsPascalScan(s[1..]);
    } else {
      assert s[..0] + [ToUpper(s[1])] + s[2..] == [ToUpper(s[1])] + s[2..];
      DropUnderscoresAfterPrefix([ToUpper(s[1])], s[2..]);
      DropUnderscoresIsPascalScan(s[2..]);
    }
  }

  /** One pass of the loop removes exactly one character and exactly one
      underscore; this is what makes the loop terminate. */
  lemma UnderscorePass(s: string)
    requires 0 <= IndexOf(s, '_') && IndexOf(s, '_') + 1 < |s|
    ensures var i := IndexOf(s, '_');
      var next := Splice(s, i);
      |next| == |s| - 1 && multiset(next)['_'] == multiset(s)['_'] - 1
  {
    var i := IndexOf(s, '_');
    Decompose(s, i);
    SpliceCounts(s[..i], s[i + 1], s[i + 2..]);
  }

  /** `s` around two adjacent positions. */
  lemma Decompose(s: string, i: nat)
    requires i + 1 < |s|
    ensures s == s[..i] + [s[i]] + [s[i + 1]] + s[i + 2..]
  {
  }

  /** Replacing `_` and `c` by `ToUpper(c)` costs one character and one underscore. */
  lemma SpliceCounts(a: string, c: char, b: string)
    ensures |a + [ToUpper(c)] + b| == |a + ['_'] + [c] + b| - 1
    ensures multiset(a + [ToUpper(c)] + b)['_'] == multiset(a + ['_'] + [c] + b)['_'] - 1
  {
    assert multiset(a + [ToUpper(c)] + b) == multiset(a) + multiset{ToUpper(c)} + multiset(b);
    assert multiset(a + ['_'] + [c] + b) == multiset(a) + multiset{'_'} + multiset{c} + multiset(b);
  }

  /** A successful scan leaves no underscore. */
  lemma {:induction false} PascalScanNoUnderscore(s: string)
    ensures PascalScan(s).Some? ==> '_' !in PascalScan(s).value
  {
    if s == [] {
    } else if s[0] != '_' {
      PascalScanNoUnderscore(s[1..]);
    } else if |s| == 1 {
    } else if s[1] == '_' {
      PascalScanNoUnderscore(s[1..]);
    } else {
      PascalScanNoUnderscore(s[2..]);
    }
  }

  /** The scan fails exactly when the input ends in an underscore. */
  lemma {:induction false} PascalScanFailsIffTrailingUnderscore(s: string)
    ensures PascalScan(s).None? <==> |s| > 0 && s[|s| - 1] == '_'
  {
    if s == [] {
    } else if s[0] != '_' {
      PascalScanFailsIffTrailingUnderscore(s[1..]);
    } else if |s| == 1 {
    } else if s[1] == '_' {
      PascalScanFailsIffTrailingUnderscore(s[1..]);
    } else {
      PascalScanFailsIffTrailingUnderscore(s[2..]);
    }
  }

  /** Each underscore costs exactly one character: the result is as long as the
      input less its underscores. */
  lemma {:induction false} PascalScanLength(s: string)
    ensures PascalScan(s).Some? ==> |PascalScan(s).value| == |s| - multiset(s)['_']
  {
    if s != [] {
      if s[0] != '_' || |s| == 1 || s[1] == '_' {
        PascalScanLength(s[1..]);
        assert s == [s[0]] + s[1..];
      } else {
        PascalScanLength(s[2..]);
        assert s == [s[0]] + [s[1]] + s[2..];
      }
    }
  }

  // ---------------------------------------------------------------------------
  // RefineEntityName
  // ---------------------------------------------------------------------------

  /** What `RefineEntityName` computes: the name itself when refinement is
      turned off, otherwise the suffix rewrites followed by the underscore loop;
      `None` when that loop's `Substring` goes out of range. */
  function Refined(name: string, turnOff: bool): (r: Option<string>)
    ensures turnOff ==> r == Some(name)
    ensures !turnOff && r.Some? ==> '_' !in r.value
    ensures !turnOff ==> (r.None? <==> |StripSuffixes(name)| > 0 && StripSuffixes(name)[|StripSuffixes(name)| - 1] == '_')
  {
    if turnOff then Some(name)
    else
      var stripped := StripSuffixes(name);
      DropUnderscoresIsPascalScan(stripped);
      PascalScanNoUnderscore(stripped);
      PascalScanFailsIffTrailingUnderscore(stripped);
      DropUnderscores(stripped)
  }

  /** With refinement on, `Refined` is the single-pass scan of the
      suffix-stripped name. */
  lemma RefinedIsPascalScan(name: string)
    ensures Refined(name, false) == PascalScan(StripSuffixes(name))
  {
    DropUnderscoresIsPascalScan(StripSuffixes(name));
  }

  /** One turn of the `foreach` over the patterns. */
  lemma ApplyPatternsStep(name: string, k: nat)
    requires k < |RemovePatterns|
    ensures RemovePatterns[k].0 != []
    ensures ApplyPatterns(name, RemovePatterns[..k + 1])
         == Replace(ApplyPatterns(name, RemovePatterns[..k]), RemovePatterns[k].0, RemovePatterns[k].1)
  {
    assert RemovePatterns[..k + 1][..k] == RemovePatterns[..k];
  }

  /** One turn of the `while (true)` loop, as `DropUnderscores` sees it. */
  lemma DropUnderscoresPass(s: string)
    ensures var i := IndexOf(s, '_');
      if i < 0 then DropUnderscores(s) == Some(s)
      else if i + 1 == |s| then DropUnderscores(s).None?
      else DropUnderscores(s) == DropUnderscores(Splice(s, i))
  {
  }

  /** `Utility.RefineEntityName`: rewrites the pattern suffixes in a `foreach`,
      then removes underscores one per pass in a `while (true)` loop. */
  method RefineEntityName(name: string, turnOff: bool) returns (r: Option<string>)
    ensures r == Refined(name, turnOff)
  {
    if turnOff {
      return Some(name);
    }
    var s := name;
    for k := 0 to |RemovePatterns|
      invariant s == ApplyPatterns(name, RemovePatterns[..k])
    {
      var pattern := RemovePatterns[k];
      ApplyPatternsStep(name, k);
      s := Replace(s, pattern.0, pattern.1);
    }
    assert RemovePatterns[..|RemovePatterns|] == RemovePatterns;
    ghost var stripped := s;
    while true
      invariant DropUnderscores(s) == DropUnderscores(stripped)
      decreases |s|
    {
      var index := IndexOf(s, '_');
      DropUnderscoresPass(s);
      if index >= 0 {
        if index + 1 >= |s| {
          return None;
        }
        var upper := ToUpper(s[index + 1]);
        ghost var next := Splice(s, index);
        s := s[..index] + [upper] + s[index + 2..];
        assert s == next;
      } else {
        break;
      }
    }
    return Some(s);
  }

  /** A name without underscores is returned unchanged. */
  lemma RefinedUnderscoreFree(name: string, turnOff: bool)
    requires '_' !in name
    ensures Refined(name, turnOff) == Some(name)
  {
    if !turnOff {
      StripSuffixesUnderscoreFree(name);
    }
  }

  /** Refinement is idempotent: refining a refined name changes nothing. */
  lemma RefinedIdempotent(name: string, turnOff: bool)
    requires Refined(name, turnOff).Some?
    ensures Refined(Refined(name, turnOff).value, turnOff) == Refined(name, turnOff)
  {
    if !turnOff {
      RefinedUnderscoreFree(Refined(name, false).value, false);
    }
  }

  /** A leading stretch without underscores passes through the scan unchanged. */
  lemma {:induction false} PascalScanAfterPrefix(p: string, t: string)
    requires '_' !in p
    ensures PascalScan(p + t) == Prepend(p, PascalScan(t))
  {
    if p != [] {
      assert (p + t)[1..] == p[1..] + t;
      PascalScanAfterPrefix(p[1..], t);
      assert [p[0]] + p[1..] == p;
      assert PascalScan(t).Some? ==> [p[0]] + (p[1..] + PascalScan(t).value) == p + PascalScan(t).value;
    } else {
      assert p + t == t;
      assert PascalScan(t).Some? ==> p + PascalScan(t).value == PascalScan(t).value;
    }
  }

  /** One underscore-separated word: `_cw` followed by `t` scans to `Cw`
      followed by the scan of `t`. */
  lemma PascalScanWord(c: char, w: string, t: string, rest: string)
    requires c != '_' && '_' !in w
    requires PascalScan(t) == Some(rest)
    ensures PascalScan(['_', c] + w + t) == Some([ToUpper(c)] + w + rest)
  {
    var s := ['_', c] + w + t;
    assert s[2..] == w + t;
    PascalScanAfterPrefix(w, t);
    assert [ToUpper(c)] + (w + rest) == [ToUpper(c)] + w + rest;
  }

  /** A word without underscores scans to itself. */
  lemma PascalScanPlain(w: string)
    requires '_' !in w
    ensures PascalScan(w) == Some(w)
  {
    PascalScanAfterPrefix(w, []);
    assert w + [] == w;
  }

  /** Facts about the example's literal, kept apart from the scan so that the
      solver does not evaluate the scan on it. */
  lemma DocNameHasNoSuffixPair()
    ensures var w := "What_can_we_help_with";
      forall k | 0 <= k < |w| - 1 :: w[k] != '_' || (w[k + 1] != '_' && w[k + 1] != '1' && w[k + 1] != 's')
  {
  }

  lemma DocNameSplit()
    ensures "What_can_we_help_with" == "What" + "_can_we_help_with"
    ensures "What" + "CanWeHelpWith" == "WhatCanWeHelpWith"
  {
  }

  lemma DocNameStrip()
    ensures StripSuffixes("What_can_we_help_with") == "What_can_we_help_with"
  {
    var w := "What_can_we_help_with";
    assert Replace(w, "_1__c", "C") == w by {
      DocNameHasNoSuffixPair();
      ReplaceWithoutLeadingPair(w, "_1__c", "C");
    }
    assert Replace(w, "_s__c", "C") == w by {
      DocNameHasNoSuffixPair();
      ReplaceWithoutLeadingPair(w, "_s__c", "C");
    }
    assert Replace(w, "__c", "C") == w by {
      DocNameHasNoSuffixPair();
      ReplaceWithoutLeadingPair(w, "__c", "C");
    }
    StripSuffixesSteps(w);
  }

  lemma ScanWithFacts()
    ensures "_with" == ['_', 'w'] + "ith" + []
    ensures [ToUpper('w')] + "ith" + [] == "With"
  {
    assert ToUpper('w') == 'W';
  }

  lemma ScanWith()
    ensures PascalScan("_with") == Some("With")
  {
    PascalScanPlain([]);
    ScanWithFacts();
    PascalScanWord('w', "ith", [], []);
  }

  lemma ScanHelpWithFacts()
    ensures "_help_with" == ['_', 'h'] + "elp" + "_with"
    ensures [ToUpper('h')] + "elp" + "With" == "HelpWith"
  {
    assert ToUpper('h') == 'H';
  }

  lemma ScanHelpWith()
    ensures PascalScan("_help_with") == Some("HelpWith")
  {
    ScanWith();
    ScanHelpWithFacts();
    PascalScanWord('h', "elp", "_with", "With");
  }

  lemma ScanWeHelpWithFacts()
    ensures "_we_help_with" == ['_', 'w'] + "e" + "_help_with"
    ensures [ToUpper('w')] + "e" + "HelpWith" == "WeHelpWith"
  {
    assert ToUpper('w') == 'W';
  }

  lemma ScanWeHelpWith()
    ensures PascalScan("_we_help_with") == Some("WeHelpWith")
  {
    ScanHelpWith();
    ScanWeHelpWithFacts();
    PascalScanWord('w', "e", "_help_with", "HelpWith");
  }

  lemma ScanCanWeHelpWithFacts()
    ensures "_can_we_help_with" == ['_', 'c'] + "an" + "_we_help_with"
    ensures [ToUpper('c')] + "an" + "WeHelpWith" == "CanWeHelpWith"
  {
    assert ToUpper('c') == 'C';
  }

  lemma ScanCanWeHelpWith()
    ensures PascalScan("_can_we_help_with") == Some("CanWeHelpWith")
  {
    ScanWeHelpWith();
    ScanCanWeHelpWithFacts();
    PascalScanWord('c', "an", "_we_help_with", "WeHelpWith");
  }

  lemma DocNameScan()
    ensures PascalScan("What_can_we_help_with") == Some("WhatCanWeHelpWith")
  {
    ScanCanWeHelpWith();
    DocNameSplit();
    PascalScanAfterPrefix("What", "_can_we_help_with");
  }

  /** The example in the source's own comment: `What_can_we_help_with`
      becomes `WhatCanWeHelpWith`. */
  lemma RefinedDocExample()
    ensures Refined("What_can_we_help_with", false) == Some("WhatCanWeHelpWith")
  {
    DocNameStrip();
    DocNameScan();
    DropUnderscoresIsPascalScan("What_can_we_help_with");
  }

  lemma CustomFieldFacts()
    ensures "First_Name__c" == "First_Name" + "__c"
    ensures var f := "First_Name__c";
      forall k | 0 <= k < |f| - 1 :: !(f[k] == '_' && (f[k + 1] == '1' || f[k + 1] == 's'))
    ensures var a := "First_Name"; var s := a + "__c";
      forall k | 0 <= k < |a| :: !(s[k] == '_' && s[k + 1] == '_')
    ensures "First_Name" + "C" == "First_NameC"
    ensures "First_NameC" == "First" + "_NameC"
    ensures "_NameC" == ['_', 'N'] + "ameC" + []
    ensures [ToUpper('N')] + "ameC" + [] == "NameC"
    ensures "First" + "NameC" == "FirstNameC"
  {
    assert ToUpper('N') == 'N';
  }

  lemma CustomFieldStrip()
    ensures StripSuffixes("First_Name__c") == "First_NameC"
  {
    var f := "First_Name__c";
    assert Replace(f, "_1__c", "C") == f by {
      CustomFieldFacts();
      ReplaceWithoutLeadingPair(f, "_1__c", "C");
    }
    assert Replace(f, "_s__c", "C") == f by {
      CustomFieldFacts();
      ReplaceWithoutLeadingPair(f, "_s__c", "C");
    }
    assert Replace(f, "__c", "C") == "First_NameC" by {
      CustomFieldFacts();
      ReplaceAfterPrefix("First_Name", "__c", "__c", "C");
      assert Replace("__c", "__c", "C") == "C" + Replace([], "__c", "C");
    }
    StripSuffixesSteps(f);
  }

  lemma CustomFieldScan()
    ensures PascalScan("First_NameC") == Some("FirstNameC")
  {
    PascalScanPlain([]);
    CustomFieldFacts();
    PascalScanWord('N', "ameC", [], []);
    PascalScanAfterPrefix("First", "_NameC");
  }

  /** A custom field: the `__c` suffix becomes `C`, then the underscore goes. */
  lemma RefinedCustomField()
    ensures Refined("First_Name__c", false) == Some("FirstNameC")
  {
    CustomFieldStrip();
    CustomFieldScan();
    DropUnderscoresIsPascalScan("First_NameC");
  }

  lemma CollisionFacts()
    ensures ValidPatterns(RemovePatterns)
    ensures forall k | 0 <= k < |RemovePatterns| :: 'c' in RemovePatterns[k].0
    ensures 'c' !in "Foo_Bar" && 'c' !in "Foo__Bar"
    ensures "Foo_Bar" == "Foo" + "_Bar" && "Foo__Bar" == "Foo" + "__Bar"
    ensures "__Bar"[1..] == "_Bar" && "__Bar"[0] == "__Bar"[1] == '_'
    ensures "_Bar" == ['_', 'B'] + "ar" + []
    ensures [ToUpper('B')] + "ar" + [] == "Bar"
    ensures "Foo" + "Bar" == "FooBar"
  {
    assert ToUpper('B') == 'B';
  }

  /** Two distinct raw names can refine to the same name. */
  lemma RefinedCollision()
    ensures Refined("Foo_Bar", false) == Refined("Foo__Bar", false) == Some("FooBar")
  {
    CollisionFacts();
    ApplyPatternsWithout("Foo_Bar", RemovePatterns, 'c');
    ApplyPatternsWithout("Foo__Bar", RemovePatterns, 'c');
    PascalScanPlain([]);
    PascalScanWord('B', "ar", [], []);
    PascalScanAfterPrefix("Foo", "_Bar");
    PascalScanAfterPrefix("Foo", "__Bar");
    DropUnderscoresIsPascalScan("Foo_Bar");
    DropUnderscoresIsPascalScan("Foo__Bar");
  }

  // ---------------------------------------------------------------------------
  // Type tables
  // ---------------------------------------------------------------------------

  /** The C# types `SoapTypeToCSharpTypeMap` can produce, `"unknown"` included. */
  const CSharpTypes: set<string> := {"DateTime", "string", "bool", "double", "int", "unknown"}

  /** The SOAP tags `SoapTypeToCSharpTypeMap` knows. */
  const KnownSoapTypes: set<string> :=
    {"xsd:dateTime", "xsd:date", "tns:ID", "xsd:boolean", "xsd:string", "xsd:double", "xsd:int"}

  /** The C# types `GetSQLType` knows. */
  const SqlMappedTypes: set<string> := {"string", "DateTime", "bool", "int", "double"}

  /** `Utility.IsCompoundType`: only the address type is compound, and a
      compound type has no C# counterpart. */
  function IsCompoundType(soapType: string): (r: bool)
    ensures r ==> soapType !in KnownSoapTypes
  {
    soapType == "urn:address"
  }

  /** `Utility.SoapTypeToCSharpTypeMap`: total; every tag outside the table,
      the address type included, maps to `"unknown"`. */
  function SoapTypeToCSharpTypeMap(soapType: string): (r: string)
    ensures r in CSharpTypes
    ensures r == "unknown" <==> soapType !in KnownSoapTypes
  {
    match soapType
    case "xsd:dateTime" => "DateTime"
    case "xsd:date" => "DateTime"
    case "tns:ID" => "string"
    case "xsd:boolean" => "bool"
    case "xsd:string" => "string"
    case "xsd:double" => "double"
    case "xsd:int" => "int"
    case _ => "unknown"
  }

  /** Which tags map to each C# type. */
  lemma SoapTypePreimages(soapType: string)
    ensures SoapTypeToCSharpTypeMap(soapType) == "DateTime" <==> soapType == "xsd:dateTime" || soapType == "xsd:date"
    ensures SoapTypeToCSharpTypeMap(soapType) == "string" <==> soapType == "tns:ID" || soapType == "xsd:string"
    ensures SoapTypeToCSharpTypeMap(soapType) == "bool" <==> soapType == "xsd:boolean"
    ensures SoapTypeToCSharpTypeMap(soapType) == "double" <==> soapType == "xsd:double"
    ensures SoapTypeToCSharpTypeMap(soapType) == "int" <==> soapType == "xsd:int"
    ensures IsCompoundType(soapType) ==> SoapTypeToCSharpTypeMap(soapType) == "unknown"
  {
  }

  /** `Utility.AddNullableMarker`: `string` is never marked; any other type
      gains a trailing `?` exactly when it is nullable. */
  function AddNullableMarker(csharpType: string, isNullable: bool): (r: string)
    ensures |r| >= |csharpType| && r[..|csharpType|] == csharpType
    ensures |r| == |csharpType| + 1 <==> csharpType != "string" && isNullable
    ensures |r| > |csharpType| ==> r[|csharpType|..] == "?"
  {
    if csharpType == "string" then csharpType
    else if isNullable then csharpType + "?" else csharpType
  }

  /** The marker can be taken off again: dropping a trailing `?` from a marked
      mapped type gives the mapped type back. */
  lemma RemoveNullableMarker(soapType: string, isNullable: bool)
    ensures var t := SoapTypeToCSharpTypeMap(soapType);
      var m := AddNullableMarker(t, isNullable);
      (if |m| > 0 && m[|m| - 1] == '?' then m[..|m| - 1] else m) == t
  {
    var t := SoapTypeToCSharpTypeMap(soapType);
    assert |t| > 0 && t[|t| - 1] != '?';
  }

  /** `Utility.GetSQLType`. */
  function GetSQLType(csharpType: string): (r: string)
    ensures r != "unknown" <==> csharpType in SqlMappedTypes
    ensures csharpType == "double" <==> r == "DECIMAL(18,2)"
  {
    match csharpType
    case "string" => "NVARCHAR(200)"
    case "DateTime" => "NVARCHAR(200)"
    case "bool" => "BIT"
    case "int" => "INT"
    case "double" => "DECIMAL(18,2)"
    case _ => "unknown"
  }

  /** Each SQL type comes from exactly the C# types the table lists for it. */
  lemma SqlTypePreimages(csharpType: string)
    ensures GetSQLType(csharpType) == "NVARCHAR(200)" <==> csharpType == "string" || csharpType == "DateTime"
    ensures GetSQLType(csharpType) == "BIT" <==> csharpType == "bool"
    ensures GetSQLType(csharpType) == "INT" <==> csharpType == "int"
    ensures GetSQLType(csharpType) == "DECIMAL(18,2)" <==> csharpType == "double"
  {
  }

  /** A tag with a C# type also has an SQL type, and an unknown tag has none. */
  lemma SqlTypeOfMappedType(soapType: string)
    ensures GetSQLType(SoapTypeToCSharpTypeMap(soapType)) == "unknown" <==> SoapTypeToCSharpTypeMap(soapType) == "unknown"
  {
  }
}
