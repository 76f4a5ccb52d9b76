/** escapeHtml: the popup text of a marker is passed through five global
    replacements, ampersand first, so that no field value can inject
    markup. */
module HtmlEscape {

  /** The five characters that escapeHtml rewrites. */
  predicate IsSpecial(c: char)
  {
    c == '&' || c == '<' || c == '>' || c == '"' || c == '\''
  }

  /** The entity escapeHtml writes for a character; any other character
      stands for itself. */
  function EscapeChar(c: char): string
  {
    match c
    case '&' => "&amp;"
    case '<' => "&lt;"
    case '>' => "&gt;"
    case '"' => "&quot;"
    case '\'' => "&#039;"
    case _ => [c]
  }

  /** s.replace(/c/g, rep): every occurrence of c becomes rep. */
  function ReplaceAll(s: string, c: char, rep: string): (r: string)
    ensures c !in rep ==> c !in r
    ensures c !in s ==> r == s
  {
    if s == [] then []
    else (if s[0] == c then rep else [s[0]]) + ReplaceAll(s[1..], c, rep)
  }

  lemma {:induction false} ReplaceAllAppend(a: string, b: string, c: char, rep: string)
    ensures ReplaceAll(a + b, c, rep) == ReplaceAll(a, c, rep) + ReplaceAll(b, c, rep)
  {
    if a == [] {
      assert a + b == b;
    } else {
      assert (a + b)[1..] == a[1..] + b;
      ReplaceAllAppend(a[1..], b, c, rep);
    }
  }

  /** One s.replace(/target/g, entity) call. */
  datatype Rule = Rule(target: char, entity: string)

  /** The five replace calls in the order of the source, ampersand first. */
  const EscapeRules: seq<Rule> := [
    Rule('&', "&amp;"), Rule('<', "&lt;"), Rule('>', "&gt;"),
    Rule('"', "&quot;"), Rule('\'', "&#039;")
  ]

  /** Runs the replace calls one after another over the whole string. */
  function ApplyRules(s: string, rules: seq<Rule>): string
    decreases |rules|
  {
    if rules == [] then s else ApplyRules(ReplaceAll(s, rules[0].target, rules[0].entity), rules[1..])
  }

  /** escapeHtml(unsafe): "" for a falsy argument, the replace chain
      otherwise. */
  function EscapeHtml(unsafe: string): (r: string)
    ensures unsafe == [] ==> r == []
  {
    if unsafe == [] then [] else ApplyRules(unsafe, EscapeRules)
  }

  /** The reference definition: each character replaced by its entity. */
  function EscapeEach(s: string): string
  {
    if s == [] then [] else EscapeChar(s[0]) + EscapeEach(s[1..])
  }

  lemma {:induction false} ApplyRulesAppend(a: string, b: string, rules: seq<Rule>)
    ensures ApplyRules(a + b, rules) == ApplyRules(a, rules) + ApplyRules(b, rules)
    decreases |rules|
  {
    if rules != [] {
      var r := rules[0];
      ReplaceAllAppend(a, b, r.target, r.entity);
      ApplyRulesAppend(ReplaceAll(a, r.target, r.entity), ReplaceAll(b, r.target, r.entity), rules[1..]);
    }
  }

  /** No replacement text contains the target of a later call: what one call
      writes is never rewritten by the calls after it. */
  predicate NoReescape(rules: seq<Rule>)
  {
    forall i, j :: 0 <= i < j < |rules| ==> rules[j].target !in rules[i].entity
  }

  /** The replacement for c: the entity of the first rule that targets it. */
  function Lookup(c: char, rules: seq<Rule>): string
  {
    if rules == [] then [c]
    else if rules[0].target == c then rules[0].entity
    else Lookup(c, rules[1..])
  }

  lemma ReplaceAllSingle(x: char, c: char, rep: string)
    ensures ReplaceAll([x], c, rep) == if x == c then rep else [x]
  {
    assert [x][1..] == [];
  }

  /** A string holding none of the targets goes through the calls untouched. */
  lemma {:induction false} ApplyRulesUntouched(s: string, rules: seq<Rule>)
    requires forall j :: 0 <= j < |rules| ==> rules[j].target !in s
    ensures ApplyRules(s, rules) == s
    decreases |rules|
  {
    if rules != [] {
      ApplyRulesUntouched(s, rules[1..]);
    }
  }

  /** When no call re-escapes an earlier one, a single character comes out
      as the entity of the first rule that targets it. */
  lemma {:induction false} ApplyRulesChar(c: char, rules: seq<Rule>)
    requires NoReescape(rules)
    ensures ApplyRules([c], rules) == Lookup(c, rules)
    decreases |rules|
  {
    if rules != [] {
      ReplaceAllSingle(c, rules[0].target, rules[0].entity);
      if rules[0].target == c {
        ApplyRulesUntouched(rules[0].entity, rules[1..]);
      } else {
        ApplyRulesChar(c, rules[1..]);
      }
    }
  }

  /** Escaping '&' first is what keeps the chain free of re-escaping. */
  lemma EscapeRulesNoReescape()
    ensures NoReescape(EscapeRules)
  {
  }

  lemma EscapeCharIsLookup(c: char)
    ensures Lookup(c, EscapeRules) == EscapeChar(c)
  {
    var rs := EscapeRules;
    if c != '&' {
      assert Lookup(c, rs) == Lookup(c, rs[1..]);
      if c != '<' {
        assert Lookup(c, rs[1..]) == Lookup(c, rs[2..]);
        if c != '>' {
          assert Lookup(c, rs[2..]) == Lookup(c, rs[3..]);
          if c != '"' {
            assert Lookup(c, rs[3..]) == Lookup(c, rs[4..]);
            if c != '\'' {
              assert Lookup(c, rs[4..]) == Lookup(c, rs[5..]) == [c];
            }
          }
        }
      }
    }
  }

  /** The replace chain of the source escapes each character independently. */
  lemma {:induction false} EscapeHtmlIsCharwise(s: string)
    ensures EscapeHtml(s) == EscapeEach(s)
  {
    if s != [] {
      assert s == [s[0]] + s[1..];
      ApplyRulesAppend([s[0]], s[1..], EscapeRules);
      EscapeRulesNoReescape();
      ApplyRulesChar(s[0], EscapeRules);
      EscapeCharIsLookup(s[0]);
      EscapeHtmlIsCharwise(s[1..]);
    }
  }

  /** No character that HTML would read as markup or as the end of an
      attribute value. */
  predicate NoRawMarkup(r: string)
  {
    forall i :: 0 <= i < |r| ==> r[i] != '<' && r[i] != '>' && r[i] != '"' && r[i] != '\''
  }

  /** t begins with one of the five entities escapeHtml writes. */
  predicate StartsWithEntity(t: string)
  {
    "&amp;" <= t || "&lt;" <= t || "&gt;" <= t || "&quot;" <= t || "&#039;" <= t
  }

  /** Every ampersand of r opens one of the five entities. */
  predicate AmpersandsOpenEntities(r: string)
  {
    forall i :: 0 <= i < |r| && r[i] == '&' ==> StartsWithEntity(r[i..])
  }

  predicate IsEscaped(r: string)
  {
    NoRawMarkup(r) && AmpersandsOpenEntities(r)
  }

  /** One of the five entities: escaped, and its only '&' is its first
      character. */
  lemma EntityEscaped(e: string)
    requires e == "&amp;" || e == "&lt;" || e == "&gt;" || e == "&quot;" || e == "&#039;"
    ensures IsEscaped(e)
    ensures forall i :: 0 < i < |e| ==> e[i] != '&'
  {
    assert e[0..] == e;
    assert e <= e;
  }

  lemma EscapeCharEscaped(c: char)
    ensures IsEscaped(EscapeChar(c))
    ensures forall i :: 0 < i < |EscapeChar(c)| ==> EscapeChar(c)[i] != '&'
  {
    if IsSpecial(c) {
      EntityEscaped(EscapeChar(c));
    }
  }

  /** An escaped piece followed by an escaped piece is escaped. */
  lemma EscapedAppend(a: string, b: string)
    requires IsEscaped(a) && IsEscaped(b)
    requires forall i :: 0 < i < |a| ==> a[i] != '&'
    ensures IsEscaped(a + b)
  {
    forall i | 0 <= i < |a + b| && (a + b)[i] == '&'
      ensures StartsWithEntity((a + b)[i..])
    {
      if i < |a| {
        assert i == 0 && (a + b)[i..] == a + b;
        assert StartsWithEntity(a);
      } else {
        assert (a + b)[i..] == b[i - |a|..];
      }
    }
  }

  /** The output of escapeHtml holds no raw '<', '>', '"' or '\'', and each
      '&' in it begins an entity. */
  lemma {:induction false} EscapeHtmlIsEscaped(s: string)
    ensures IsEscaped(EscapeHtml(s))
  {
    EscapeHtmlIsCharwise(s);
    EscapeEachIsEscaped(s);
  }

  lemma {:induction false} EscapeEachIsEscaped(s: string)
    ensures IsEscaped(EscapeEach(s))
  {
    if s != [] {
      EscapeCharEscaped(s[0]);
      EscapeEachIsEscaped(s[1..]);
      EscapedAppend(EscapeChar(s[0]), EscapeEach(s[1..]));
    }
  }

  /** Decodes the five entities escapeHtml writes; anything else, including
      a stray '&', stands for itself. */
  function Unescape(r: string): string
    decreases |r|
  {
    if r == [] then []
    else if "&amp;" <= r then "&" + Unescape(r[5..])
    else if "&lt;" <= r then "<" + Unescape(r[4..])
    else if "&gt;" <= r then ">" + Unescape(r[4..])
    else if "&quot;" <= r then "\"" + Unescape(r[6..])
    else if "&#039;" <= r then "'" + Unescape(r[6..])
    else [r[0]] + Unescape(r[1..])
  }

  lemma UnescapeChar(c: char, rest: string)
    ensures Unescape(EscapeChar(c) + rest) == [c] + Unescape(rest)
  {
    var e := EscapeChar(c);
    var t := e + rest;
    assert t[|e|..] == rest;
    assert t[..|e|] == e;
    if !IsSpecial(c) {
      assert t[0] == c && t[1..] == rest;
    } else if c != '&' {
      assert t[1] == e[1] != 'a';
      if c != '<' {
        assert t[1] == e[1] != 'l';
        if c != '>' {
          assert t[1] == e[1] != 'g';
          if c != '"' {
            assert t[1] == e[1] != 'q';
          }
        }
      }
    }
  }

  /** Unescaping the output of escapeHtml gives back its input: every
      character other than the five special ones is copied unchanged and in
      order, and each special one is recoverable from its entity. */
  lemma {:induction false} UnescapeEscapeHtml(s: string)
    ensures Unescape(EscapeHtml(s)) == s
  {
    EscapeHtmlIsCharwise(s);
    UnescapeEscapeEach(s);
  }

  lemma {:induction false} UnescapeEscapeEach(s: string)
    ensures Unescape(EscapeEach(s)) == s
  {
    if s != [] {
      UnescapeChar(s[0], EscapeEach(s[1..]));
      UnescapeEscapeEach(s[1..]);
    }
  }

  /** Text without any of the five special characters comes out verbatim. */
  lemma EscapeHtmlPlain(s: string)
    requires forall i :: 0 <= i < |s| ==> !IsSpecial(s[i])
    ensures EscapeHtml(s) == s
  {
  }

  /** Running the '&' replacement last instead of first would re-escape the
      ampersand of "&lt;": "<" would come out as "&amp;lt;". */
  lemma AmpersandLastReescapes()
    ensures !NoReescape([Rule('<', "&lt;"), Rule('&', "&amp;")])
    ensures ApplyRules("<", [Rule('<', "&lt;"), Rule('&', "&amp;")]) == "&amp;lt;"
  {
    var rs := [Rule('<', "&lt;"), Rule('&', "&amp;")];
    assert rs[1].target == rs[0].entity[0];
    ApplyTwoRules("<", rs[0], rs[1]);
    ReplaceAllSingle('<', '<', "&lt;");
    ReescapeAmpersand();
  }

  /** Two replace calls in a row. */
  lemma ApplyTwoRules(s: string, first: Rule, second: Rule)
    ensures ApplyRules(s, [first, second]) ==
            ReplaceAll(ReplaceAll(s, first.target, first.entity), second.target, second.entity)
  {
    var once := ReplaceAll(s, first.target, first.entity);
    assert [first, second][1..] == [second];
    assert ApplyRules(s, [first, second]) == ApplyRules(once, [second]);
    assert [second][1..] == [];
    assert ApplyRules(once, [second]) == ApplyRules(ReplaceAll(once, second.target, second.entity), []);
  }

  /** The '&' replacement rewrites the ampersand of "&lt;". */
  lemma ReescapeAmpersand()
    ensures ReplaceAll("&lt;", '&', "&amp;") == "&amp;lt;"
  {
    assert "&lt;" == ['&'] + "lt;";
    ReplaceAllAppend(['&'], "lt;", '&', "&amp;");
    ReplaceAllSingle('&', '&', "&amp;");
    assert '&' !in "lt;";
  }
}
