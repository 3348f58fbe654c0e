/** The search pattern built from a saved snippet (content.js, highlightTextOnPage):
    regular-expression specials are escaped, then every whitespace run becomes
    `\s*`. The pattern is given meaning by ParsePattern, the regular-expression
    engine's reading of such a pattern, and by Atoms, the snippet's own structure. */
module Pattern {
  import opened Base

  /** The characters the escaping step prefixes with a backslash. */
  predicate IsSpecial(c: char)
  {
    || c == '.' || c == '*' || c == '+' || c == '?' || c == '^' || c == '$'
    || c == '{' || c == '}' || c == '(' || c == ')' || c == '|'
    || c == '[' || c == ']' || c == '\\'
  }

  function EscapeChar(c: char): (r: string)
    ensures 1 <= |r| <= 2 && r[|r| - 1] == c
    ensures |r| == 2 <==> IsSpecial(c)
    ensures |r| == 2 ==> r[0] == '\\'
  {
    if IsSpecial(c) then ['\\', c] else [c]
  }

  /** `text.replace(/[.*+?^${}()|[\]\\]/g, '\\$&')` */
  function Escape(s: string): (r: string)
    ensures |r| >= |s|
  {
    if s == [] then [] else EscapeChar(s[0]) + Escape(s[1..])
  }

  /** Drops the whitespace run at the front of `s`. */
  function DropSpaces(s: string): (r: string)
    ensures |r| <= |s|
    ensures s != [] && IsSpace(s[0]) ==> |r| < |s|
    ensures r == [] || !IsSpace(r[0])
  {
    if s != [] && IsSpace(s[0]) then DropSpaces(s[1..]) else s
  }

  /** `text.replace(/\s+/g, '\\s*')`: every maximal whitespace run becomes `\s*`. */
  function Collapse(s: string): (r: string)
    ensures forall k :: 0 <= k < |r| ==> !IsSpace(r[k])
    ensures |r| == 0 <==> |s| == 0
    decreases |s|
  {
    if s == [] then []
    else if IsSpace(s[0]) then "\\s*" + Collapse(DropSpaces(s))
    else [s[0]] + Collapse(s[1..])
  }

  /** One element of a compiled pattern: a literal character (matched up to
      case), or `\s*` (any run of whitespace, possibly empty). */
  datatype Atom = Lit(c: char) | AnySpaces

  /** The well-formedness every built pattern has: literals are never
      whitespace, and two `\s*` never stand next to each other. */
  predicate WellFormed(atoms: seq<Atom>)
  {
    && (forall k :: 0 <= k < |atoms| && atoms[k].Lit? ==> !IsSpace(atoms[k].c))
    && (forall k :: 0 <= k < |atoms| - 1 && atoms[k].AnySpaces? ==> atoms[k + 1].Lit?)
  }

  predicate HasLiteral(atoms: seq<Atom>)
  {
    exists k :: 0 <= k < |atoms| && atoms[k].Lit?
  }

  /** The structure of the snippet itself: each non-whitespace character is a
      literal, each maximal whitespace run one `\s*`. */
  function Atoms(t: string): (r: seq<Atom>)
    ensures WellFormed(r)
    ensures |r| == 0 <==> |t| == 0
    ensures |t| > 0 ==> (r[0].AnySpaces? <==> IsSpace(t[0]))
    decreases |t|
  {
    if t == [] then []
    else if IsSpace(t[0]) then [AnySpaces] + Atoms(DropSpaces(t))
    else [Lit(t[0])] + Atoms(t[1..])
  }

  function Prepend(a: Atom, rest: Option<seq<Atom>>): Option<seq<Atom>>
  {
    if rest.Some? then Some([a] + rest.value) else None
  }

  /** How the regular-expression engine reads a pattern made of escaped
      characters, plain non-special characters and `\s*`; None for anything else. */
  function ParsePattern(p: string): (r: Option<seq<Atom>>)
    ensures r.Some? ==> |r.value| <= |p|
    ensures r.Some? && p != [] ==> r.value != []
    decreases |p|
  {
    if p == [] then Some([])
    else if p[0] == '\\' then
      if |p| >= 3 && p[1] == 's' && p[2] == '*' then Prepend(AnySpaces, ParsePattern(p[3..]))
      else if |p| >= 2 && IsSpecial(p[1]) then Prepend(Lit(p[1]), ParsePattern(p[2..]))
      else None
    else if IsSpecial(p[0]) then None
    else Prepend(Lit(p[0]), ParsePattern(p[1..]))
  }

  /** How a sequence of atoms is written as a pattern: a literal as its
      escaped character, `\s*` as itself. */
  function Render(atoms: seq<Atom>): string
    decreases |atoms|
  {
    if atoms == [] then []
    else (if atoms[0].Lit? then EscapeChar(atoms[0].c) else "\\s*") + Render(atoms[1..])
  }

  /** The regular-expression engine reads a rendered pattern back as the
      atoms it was rendered from. */
  lemma {:induction false} ParseRender(atoms: seq<Atom>)
    ensures ParsePattern(Render(atoms)) == Some(atoms)
    decreases |atoms|
  {
    if atoms != [] {
      var rest := Render(atoms[1..]);
      ParseRender(atoms[1..]);
      if atoms[0].Lit? {
        var c := atoms[0].c;
        var x := EscapeChar(c);
        if IsSpecial(c) {
          assert (x + rest)[2..] == rest;
          assert c != 's';
        } else {
          assert (x + rest)[1..] == rest;
          assert c != '\\';
        }
      } else {
        assert ("\\s*" + rest)[3..] == rest;
      }
      assert [atoms[0]] + atoms[1..] == atoms;
    }
  }

  /** Every character of `s` as a literal, whitespace included. */
  function Literals(s: string): (r: seq<Atom>)
    ensures |r| == |s|
    ensures forall k :: 0 <= k < |s| ==> r[k] == Lit(s[k])
    decreases |s|
  {
    if s == [] then [] else [Lit(s[0])] + Literals(s[1..])
  }

  /** After escaping, the regular-expression engine reads every character of
      the text, the special ones included, as a literal of its own. */
  lemma {:induction false} EscapeIsLiteral(s: string)
    ensures Escape(s) == Render(Literals(s))
    ensures ParsePattern(Escape(s)) == Some(Literals(s))
    decreases |s|
  {
    if s != [] {
      EscapeIsLiteral(s[1..]);
      assert Literals(s)[1..] == Literals(s[1..]);
    }
    ParseRender(Literals(s));
  }

  lemma {:induction false} DropSpacesEscape(t: string)
    ensures DropSpaces(Escape(t)) == Escape(DropSpaces(t))
  {
    if t != [] {
      var e := Escape(t);
      if IsSpace(t[0]) {
        assert e == [t[0]] + Escape(t[1..]);
        assert e[1..] == Escape(t[1..]);
        assert DropSpaces(e) == DropSpaces(Escape(t[1..]));
        DropSpacesEscape(t[1..]);
        assert DropSpaces(t) == DropSpaces(t[1..]);
      } else {
        assert !IsSpace(e[0]) by {
          assert e == EscapeChar(t[0]) + Escape(t[1..]);
          assert e[0] == EscapeChar(t[0])[0];
        }
        assert DropSpaces(e) == e;
        assert DropSpaces(t) == t;
      }
    }
  }

  lemma {:induction false} CollapseVisiblePrefix(x: string, rest: string)
    requires forall k :: 0 <= k < |x| ==> !IsSpace(x[k])
    ensures Collapse(x + rest) == x + Collapse(rest)
    decreases |x|
  {
    if x != [] {
      var s := x + rest;
      assert s[0] == x[0] && !IsSpace(s[0]);
      assert s[1..] == x[1..] + rest;
      assert Collapse(s) == [x[0]] + Collapse(x[1..] + rest);
      CollapseVisiblePrefix(x[1..], rest);
      assert Collapse(x[1..] + rest) == x[1..] + Collapse(rest);
      assert [x[0]] + (x[1..] + Collapse(rest)) == x + Collapse(rest);
    } else {
      assert x + rest == rest;
    }
  }

  /** Escaping and then collapsing whitespace writes out the snippet's own
      structure. */
  lemma {:induction false} CollapseEscapeRenders(t: string)
    ensures Collapse(Escape(t)) == Render(Atoms(t))
    decreases |t|
  {
    if t != [] {
      var e := Escape(t);
      assert e == EscapeChar(t[0]) + Escape(t[1..]);
      if IsSpace(t[0]) {
        assert e[0] == t[0];
        DropSpacesEscape(t);
        CollapseEscapeRenders(DropSpaces(t));
        assert ([AnySpaces] + Atoms(DropSpaces(t)))[1..] == Atoms(DropSpaces(t));
      } else {
        var x := EscapeChar(t[0]);
        assert forall k :: 0 <= k < |x| ==> !IsSpace(x[k]);
        CollapseVisiblePrefix(x, Escape(t[1..]));
        CollapseEscapeRenders(t[1..]);
        assert ([Lit(t[0])] + Atoms(t[1..]))[1..] == Atoms(t[1..]);
      }
    }
  }

  /** The pattern source handed to `new RegExp(pattern, 'gi')`. The engine
      reads it back as exactly the snippet's structure: escaping loses no
      character and turns none into an operator, and each whitespace run
      becomes one `\s*`. */
  function BuildPattern(target: string): (p: string)
    ensures ParsePattern(p) == Some(Atoms(target))
  {
    CollapseEscapeRenders(target);
    ParseRender(Atoms(target));
    Collapse(Escape(target))
  }

  lemma HasLiteralCons(a: Atom, r: seq<Atom>)
    ensures HasLiteral([a] + r) <==> a.Lit? || HasLiteral(r)
  {
    var s := [a] + r;
    assert s[0] == a;
    if HasLiteral(r) {
      var k :| 0 <= k < |r| && r[k].Lit?;
      assert s[k + 1] == r[k];
    }
    if HasLiteral(s) {
      var k :| 0 <= k < |s| && s[k].Lit?;
      if k > 0 {
        assert s[k] == r[k - 1];
      }
    }
  }

  /** Dropping leading whitespace keeps every visible character. */
  lemma {:induction false} DropSpacesVisible(t: string)
    ensures HasVisible(DropSpaces(t)) <==> HasVisible(t)
    decreases |t|
  {
    if t != [] && IsSpace(t[0]) {
      DropSpacesVisible(t[1..]);
      if HasVisible(t) {
        var k :| 0 <= k < |t| && !IsSpace(t[k]);
        assert t[1..][k - 1] == t[k];
      }
      if HasVisible(t[1..]) {
        var k :| 0 <= k < |t[1..]| && !IsSpace(t[1..][k]);
        assert t[k + 1] == t[1..][k];
      }
    }
  }

  /** The pattern contains a literal exactly when the snippet has a visible
      character; without one it could match the empty string. */
  lemma {:induction false} AtomsHaveLiteral(t: string)
    ensures HasLiteral(Atoms(t)) <==> HasVisible(t)
    decreases |t|
  {
    if t != [] {
      if IsSpace(t[0]) {
        var d := DropSpaces(t);
        AtomsHaveLiteral(d);
        HasLiteralCons(AnySpaces, Atoms(d));
        DropSpacesVisible(t);
      } else {
        HasLiteralCons(Lit(t[0]), Atoms(t[1..]));
        assert !IsSpace(t[0]);
      }
    }
  }

  /** A snippet of whitespace only is a single `\s*`. */
  lemma BlankAtoms(t: string)
    requires t != [] && !HasVisible(t)
    ensures Atoms(t) == [AnySpaces]
  {
    assert IsSpace(t[0]);
    var d := DropSpaces(t);
    DropSpacesVisible(t);
  }
}
