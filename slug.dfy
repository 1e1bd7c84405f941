/**
 * The slug a blog post gets from its title in the model's pre-save hook:
 * lower-case, drop every character outside `[a-z0-9 -]`, turn each run of
 * white space into one hyphen, collapse runs of hyphens, call `.trim('-')`,
 * then append a hyphen and the millisecond timestamp.
 */
module Slug {
  import opened JsText

  predicate IsSlugChar(c: char)
  {
    'a' <= c <= 'z' || '0' <= c <= '9' || c == '-'
  }

  /** The characters `/[^a-z0-9 -]/g` does not remove. */
  predicate IsKept(c: char)
  {
    'a' <= c <= 'z' || '0' <= c <= '9' || c == ' ' || c == '-'
  }

  predicate NoDoubleHyphen(s: string)
  {
    forall i :: 0 < i < |s| ==> !(s[i - 1] == '-' && s[i] == '-')
  }

  /** `.replace(/[^a-z0-9 -]/g, '')`: the kept characters, in order. */
  function StripDisallowed(s: string): string
  {
    if s == [] then []
    else if IsKept(s[0]) then [s[0]] + StripDisallowed(s[1..])
    else StripDisallowed(s[1..])
  }

  /** `.replace(/\s+/g, '-')`: every maximal run of white space becomes one
      hyphen; the other characters stay. */
  function HyphenateWhiteSpace(s: string): string
    decreases |s|
  {
    if s == [] then []
    else if IsWhiteSpace(s[0]) then ['-'] + HyphenateWhiteSpace(TrimStart(s))
    else [s[0]] + HyphenateWhiteSpace(s[1..])
  }

  /** `s` without its leading hyphens. */
  function DropHyphens(s: string): (r: string)
    ensures |r| <= |s| && r == s[|s| - |r|..]
    ensures r == [] || r[0] != '-'
  {
    if s != [] && s[0] == '-' then DropHyphens(s[1..]) else s
  }

  /** `.replace(/-+/g, '-')`: every maximal run of hyphens becomes one. */
  function CollapseHyphens(s: string): string
    decreases |s|
  {
    if s == [] then []
    else if s[0] == '-' then ['-'] + CollapseHyphens(DropHyphens(s))
    else [s[0]] + CollapseHyphens(s[1..])
  }

  /** Stripping keeps exactly the allowed characters. */
  lemma {:induction false} StripShape(s: string)
    ensures forall i :: 0 <= i < |StripDisallowed(s)| ==> IsKept(StripDisallowed(s)[i])
    ensures forall c :: c in s && IsKept(c) ==> c in StripDisallowed(s)
  {
    if s != [] {
      StripShape(s[1..]);
      assert forall c :: c in s ==> c == s[0] || c in s[1..];
    }
  }

  /** Hyphenation leaves no white space and adds nothing but hyphens. */
  lemma {:induction false} HyphenateShape(s: string)
    ensures forall c :: c in HyphenateWhiteSpace(s) ==> c == '-' || (c in s && !IsWhiteSpace(c))
    decreases |s|
  {
    if s != [] {
      if IsWhiteSpace(s[0]) {
        var t := TrimStart(s);
        TrimStartShape(s);
        HyphenateShape(t);
        forall c | c in t ensures c in s {
          var j :| 0 <= j < |t| && t[j] == c;
          assert s[|s| - |t| + j] == c;
        }
        assert HyphenateWhiteSpace(s) == ['-'] + HyphenateWhiteSpace(t);
      } else {
        var rest := s[1..];
        HyphenateShape(rest);
        forall c | c in rest ensures c in s {
          var j :| 0 <= j < |rest| && rest[j] == c;
          assert s[j + 1] == c;
        }
        assert HyphenateWhiteSpace(s) == [s[0]] + HyphenateWhiteSpace(rest);
      }
    }
  }

  /** Collapsing keeps the first character, adds no character, and leaves no
      two hyphens side by side. */
  lemma {:induction false} CollapseShape(s: string)
    ensures var r := CollapseHyphens(s);
      && (r == [] <==> s == [])
      && (r != [] ==> r[0] == s[0])
      && (forall i :: 0 <= i < |r| ==> r[i] in s)
      && NoDoubleHyphen(r)
    decreases |s|
  {
    if s != [] {
      var r := CollapseHyphens(s);
      if s[0] == '-' {
        var t := DropHyphens(s);
        CollapseShape(t);
        assert forall c :: c in t ==> c in s;
        assert r == ['-'] + CollapseHyphens(t);
      } else {
        CollapseShape(s[1..]);
        assert forall c :: c in s[1..] ==> c in s;
        assert r == [s[0]] + CollapseHyphens(s[1..]);
      }
    }
  }

  /** The part of the slug before the timestamp. The final `.trim('-')` is
      `String.prototype.trim`, which takes no argument: it strips white space
      and ignores the `'-'`. */
  function SlugBody(title: string): string
  {
    Trim(CollapseHyphens(HyphenateWhiteSpace(StripDisallowed(ToLower(title)))))
  }

  /** The slug for `title` saved at millisecond time `now`. */
  function MakeSlug(title: string, now: nat): string
  {
    SlugBody(title) + "-" + ToDecimal(now)
  }

  /** What the three `replace` calls leave holds only `[a-z0-9-]`, never two
      hyphens in a row, and no white space. */
  lemma {:induction false} ReplacedShape(title: string)
    ensures var s := CollapseHyphens(HyphenateWhiteSpace(StripDisallowed(ToLower(title))));
      (forall i :: 0 <= i < |s| ==> IsSlugChar(s[i])) && NoDoubleHyphen(s)
  {
    var stripped := StripDisallowed(ToLower(title));
    StripShape(ToLower(title));
    var hyphenated := HyphenateWhiteSpace(stripped);
    HyphenateShape(stripped);
    forall i | 0 <= i < |hyphenated| ensures IsSlugChar(hyphenated[i]) {
      var c := hyphenated[i];
      assert c == '-' || (c in stripped && !IsWhiteSpace(c));
      if c != '-' {
        var j :| 0 <= j < |stripped| && stripped[j] == c;
        assert IsKept(c) && c != ' ';
      }
    }
    var s := CollapseHyphens(hyphenated);
    CollapseShape(hyphenated);
    forall i | 0 <= i < |s| ensures IsSlugChar(s[i]) {
      var j :| 0 <= j < |hyphenated| && hyphenated[j] == s[i];
    }
  }

  /** `.trim('-')` removes nothing here: no white space is left to trim, and
      it does not strip hyphens. */
  lemma TrimCallIsNoOp(title: string)
    ensures var s := CollapseHyphens(HyphenateWhiteSpace(StripDisallowed(ToLower(title))));
      SlugBody(title) == s
  {
    var s := CollapseHyphens(HyphenateWhiteSpace(StripDisallowed(ToLower(title))));
    ReplacedShape(title);
    assert s == [] || !IsWhiteSpace(s[0]);
    assert TrimStart(s) == s;
    assert s == [] || !IsWhiteSpace(s[|s| - 1]);
    assert TrimEnd(s) == s;
  }

  /** Every character of the slug body is in `[a-z0-9-]`, no two hyphens are
      adjacent, and there is no white space. */
  lemma SlugBodyShape(title: string)
    ensures forall i :: 0 <= i < |SlugBody(title)| ==> IsSlugChar(SlugBody(title)[i])
    ensures NoDoubleHyphen(SlugBody(title))
    ensures forall i :: 0 <= i < |SlugBody(title)| ==> !IsWhiteSpace(SlugBody(title)[i])
  {
    ReplacedShape(title);
    TrimCallIsNoOp(title);
  }

  /** A title that starts with a hyphen keeps a leading hyphen in its slug:
      the replacements keep it and the final trim does not touch hyphens. */
  lemma LeadingHyphenSurvives(title: string)
    requires title != [] && title[0] == '-'
    ensures SlugBody(title) != [] && SlugBody(title)[0] == '-'
  {
    var lower := ToLower(title);
    var stripped := StripDisallowed(lower);
    assert stripped == [lower[0]] + StripDisallowed(lower[1..]);
    var hyphenated := HyphenateWhiteSpace(stripped);
    assert hyphenated == [stripped[0]] + HyphenateWhiteSpace(stripped[1..]);
    CollapseShape(hyphenated);
    TrimCallIsNoOp(title);
  }

  // The next lemmas pin each replacement down character by character:
  // together with the value on the empty string they determine it.

  /** Stripping works character by character: it distributes over
      concatenation and keeps a single character exactly when it is allowed. */
  lemma {:induction false} StripAppend(a: string, b: string)
    ensures StripDisallowed(a + b) == StripDisallowed(a) + StripDisallowed(b)
  {
    if a == [] {
      assert a + b == b;
    } else {
      assert (a + b)[0] == a[0] && (a + b)[1..] == a[1..] + b;
      StripAppend(a[1..], b);
      if IsKept(a[0]) {
        assert StripDisallowed(a + b) == [a[0]] + (StripDisallowed(a[1..]) + StripDisallowed(b));
      }
    }
  }

  lemma StripOne(c: char)
    ensures StripDisallowed([c]) == if IsKept(c) then [c] else []
  {
    assert [c][1..] == [];
  }

  /** A maximal run of white space becomes exactly one hyphen. */
  lemma HyphenateRun(w: string, x: string)
    requires w != [] && AllWhiteSpace(w)
    requires x == [] || !IsWhiteSpace(x[0])
    ensures HyphenateWhiteSpace(w + x) == ['-'] + HyphenateWhiteSpace(x)
  {
    assert (w + x)[0] == w[0];
    TrimStartPast(w, x);
  }

  /** A character other than white space is kept as it is. */
  lemma HyphenateKeepsFirst(c: char, s: string)
    requires !IsWhiteSpace(c)
    ensures HyphenateWhiteSpace([c] + s) == [c] + HyphenateWhiteSpace(s)
  {
    assert ([c] + s)[1..] == s;
  }

  /** A maximal run of hyphens becomes exactly one hyphen. */
  lemma CollapseRun(h: string, x: string)
    requires h != [] && forall i :: 0 <= i < |h| ==> h[i] == '-'
    requires x == [] || x[0] != '-'
    ensures CollapseHyphens(h + x) == ['-'] + CollapseHyphens(x)
  {
    assert (h + x)[0] == h[0];
    DropHyphensPast(h, x);
  }

  /** A character other than a hyphen is kept as it is. */
  lemma CollapseKeepsFirst(c: char, s: string)
    requires c != '-'
    ensures CollapseHyphens([c] + s) == [c] + CollapseHyphens(s)
  {
    assert ([c] + s)[1..] == s;
  }

  lemma {:induction false} TrimStartPast(w: string, x: string)
    requires AllWhiteSpace(w)
    requires x == [] || !IsWhiteSpace(x[0])
    ensures TrimStart(w + x) == x
  {
    if w == [] {
      assert w + x == x;
    } else {
      assert (w + x)[0] == w[0] && (w + x)[1..] == w[1..] + x;
      TrimStartPast(w[1..], x);
    }
  }

  lemma {:induction false} DropHyphensPast(h: string, x: string)
    requires forall i :: 0 <= i < |h| ==> h[i] == '-'
    requires x == [] || x[0] != '-'
    ensures DropHyphens(h + x) == x
  {
    if h == [] {
      assert h + x == x;
    } else {
      assert (h + x)[0] == h[0] && (h + x)[1..] == h[1..] + x;
      DropHyphensPast(h[1..], x);
    }
  }

  /** A string of allowed characters is left as it is. */
  lemma {:induction false} StripKeepsKept(s: string)
    requires forall i :: 0 <= i < |s| ==> IsKept(s[i])
    ensures StripDisallowed(s) == s
  {
    if s != [] {
      StripKeepsKept(s[1..]);
    }
  }

  /** A string without white space is left as it is. */
  lemma {:induction false} HyphenateKeepsPlain(s: string)
    requires forall i :: 0 <= i < |s| ==> !IsWhiteSpace(s[i])
    ensures HyphenateWhiteSpace(s) == s
  {
    if s != [] {
      HyphenateKeepsPlain(s[1..]);
    }
  }

  /** A string without hyphens is left as it is. */
  lemma {:induction false} CollapseKeepsPlain(s: string)
    requires '-' !in s
    ensures CollapseHyphens(s) == s
  {
    if s != [] {
      assert s[0] in s && s == [s[0]] + s[1..];
      assert '-' !in s[1..];
      CollapseKeepsPlain(s[1..]);
    }
  }

  /** The same title saved at two different times gets two different slugs. */
  lemma DistinctTimesDistinctSlugs(title: string, t1: nat, t2: nat)
    requires t1 != t2
    ensures MakeSlug(title, t1) != MakeSlug(title, t2)
  {
    var prefix := SlugBody(title) + "-";
    assert MakeSlug(title, t1) == prefix + ToDecimal(t1);
    assert MakeSlug(title, t2) == prefix + ToDecimal(t2);
    if MakeSlug(title, t1) == MakeSlug(title, t2) {
      assert ToDecimal(t1) == MakeSlug(title, t1)[|prefix|..];
      assert ToDecimal(t2) == MakeSlug(title, t2)[|prefix|..];
      ToDecimalInjective(t1, t2);
    }
  }
}
