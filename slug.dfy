/** `slugify` of the rules page (src/components/Rules/Rules.tsx): turns a rule
    title into a fragment of a URL in five passes: lower-case, strip accents
    (canonical decomposition, then drop the combining marks), drop every
    character outside `[a-z0-9\s-]`, trim, and turn each run of white space
    into one `-`. */
module Slug {
  import opened Text

  // ---------------------------------------------------------------------------
  // Keeping the characters of a class (`replace(/[^...]/g, '')`)
  // ---------------------------------------------------------------------------

  /** The characters of `s` that satisfy `keep`, in order: what
      `s.replace(/[^class]/g, '')` leaves when `keep` is the class. */
  function Retain(s: string, keep: char -> bool): (r: string)
    ensures |r| <= |s|
    ensures forall i :: 0 <= i < |r| ==> keep(r[i])
    decreases |s|
  {
    if s == [] then []
    else if keep(s[0]) then [s[0]] + Retain(s[1..], keep)
    else Retain(s[1..], keep)
  }

  lemma {:induction false} RetainConcat(a: string, b: string, keep: char -> bool)
    ensures Retain(a + b, keep) == Retain(a, keep) + Retain(b, keep)
    decreases |a|
  {
    if a == [] {
      assert a + b == b;
    } else {
      assert (a + b)[0] == a[0];
      assert (a + b)[1..] == a[1..] + b;
      RetainConcat(a[1..], b, keep);
    }
  }

  /** Nothing is dropped from a string whose every character is kept. */
  lemma {:induction false} RetainAll(s: string, keep: char -> bool)
    requires forall i :: 0 <= i < |s| ==> keep(s[i])
    ensures Retain(s, keep) == s
    decreases |s|
  {
    if s != [] { RetainAll(s[1..], keep); }
  }

  /** Nothing is kept from a string whose every character is dropped. */
  lemma {:induction false} RetainNone(s: string, keep: char -> bool)
    requires forall i :: 0 <= i < |s| ==> !keep(s[i])
    ensures Retain(s, keep) == []
    decreases |s|
  {
    if s != [] { RetainNone(s[1..], keep); }
  }

  /** Keeping a narrower class after a wider one is keeping the narrower one. */
  lemma {:induction false} RetainNarrower(s: string, wide: char -> bool, narrow: char -> bool)
    requires forall c :: narrow(c) ==> wide(c)
    ensures Retain(Retain(s, wide), narrow) == Retain(s, narrow)
    decreases |s|
  {
    if s != [] {
      RetainNarrower(s[1..], wide, narrow);
      if wide(s[0]) {
        assert ([s[0]] + Retain(s[1..], wide))[1..] == Retain(s[1..], wide);
      }
    }
  }

  // ---------------------------------------------------------------------------
  // Accents: normalize('NFD') and the removal of U+0300 to U+036F
  // ---------------------------------------------------------------------------

  /** The block of combining diacritical marks, U+0300 to U+036F. */
  predicate IsCombiningMark(c: char)
    ensures IsCombiningMark(c) ==> !IsSpace(c) && !IsSlugClass(c)
  {
    '\U{0300}' <= c <= '\U{036F}'
  }

  predicate NotCombiningMark(c: char) {
    !IsCombiningMark(c)
  }

  const Grave: char := '\U{0300}'
  const Acute: char := '\U{0301}'
  const Circumflex: char := '\U{0302}'
  const Tilde: char := '\U{0303}'
  const Diaeresis: char := '\U{0308}'
  const Ring: char := '\U{030A}'
  const Cedilla: char := '\U{0327}'

  /** A base letter followed by a combining mark. */
  function Composed(base: char, lowerCase: bool, mark: char): (d: seq<char>)
    requires 'A' <= base <= 'Z'
    ensures |d| == 2 && IsCombiningMark(mark) ==> IsCombiningMark(d[1])
  {
    [if lowerCase then (base as int + 32) as char else base, mark]
  }

  /** The canonical decomposition of one character, for the precomposed
      letters of Latin-1 (U+00C0 to U+00FF); every other character, and the
      Latin-1 letters without a decomposition (Æ, Ð, Ø, Þ, ß and their lower
      case), stand for themselves. */
  function DecomposeChar(c: char): (d: seq<char>)
    ensures 1 <= |d| <= 2
    ensures |d| == 1 ==> d == [c]
    ensures |d| == 2 ==> ('a' <= d[0] <= 'z' || 'A' <= d[0] <= 'Z') && IsCombiningMark(d[1])
    ensures c < '\U{00C0}' ==> d == [c]
  {
    if c == '\U{00FF}' then ['y', Diaeresis]
    else if '\U{00C0}' <= c <= '\U{00FD}' && c != '\U{00DE}' && c != '\U{00DF}' then
      var lowerCase := c >= '\U{00E0}';
      var o := c as int - (if lowerCase then 0xE0 else 0xC0);
      if o <= 5 then Composed('A', lowerCase, [Grave, Acute, Circumflex, Tilde, Diaeresis, Ring][o])
      else if o == 7 then Composed('C', lowerCase, Cedilla)
      else if 8 <= o <= 11 then Composed('E', lowerCase, [Grave, Acute, Circumflex, Diaeresis][o - 8])
      else if 12 <= o <= 15 then Composed('I', lowerCase, [Grave, Acute, Circumflex, Diaeresis][o - 12])
      else if o == 17 then Composed('N', lowerCase, Tilde)
      else if 18 <= o <= 22 then Composed('O', lowerCase, [Grave, Acute, Circumflex, Tilde, Diaeresis][o - 18])
      else if 25 <= o <= 28 then Composed('U', lowerCase, [Grave, Acute, Circumflex, Diaeresis][o - 25])
      else if o == 29 then Composed('Y', lowerCase, Acute)
      else [c]
    else [c]
  }

  /** `normalize('NFD')`, character by character over the table above: a
      character gives itself, or a letter and a combining mark. */
  function Nfd(s: string): (r: string)
    ensures |s| <= |r| <= 2 * |s|
    decreases |s|
  {
    if s == [] then [] else DecomposeChar(s[0]) + Nfd(s[1..])
  }

  lemma {:induction false} NfdConcat(a: string, b: string)
    ensures Nfd(a + b) == Nfd(a) + Nfd(b)
    decreases |a|
  {
    if a == [] {
      assert a + b == b;
    } else {
      assert (a + b)[0] == a[0];
      assert (a + b)[1..] == a[1..] + b;
      NfdConcat(a[1..], b);
    }
  }

  /** Characters below U+00C0 have no decomposition. */
  lemma {:induction false} NfdOfPlain(s: string)
    requires forall i :: 0 <= i < |s| ==> s[i] < '\U{00C0}'
    ensures Nfd(s) == s
    decreases |s|
  {
    if s != [] { NfdOfPlain(s[1..]); }
  }

  /** Removing accents: decompose, then drop the combining marks. No mark is
      left, and text below U+00C0 comes through unchanged. */
  function StripAccents(s: string): (r: string)
    ensures forall i :: 0 <= i < |r| ==> !IsCombiningMark(r[i])
    ensures (forall i :: 0 <= i < |s| ==> s[i] < '\U{00C0}') ==> r == s
  {
    if forall i :: 0 <= i < |s| ==> s[i] < '\U{00C0}' then
      NfdOfPlain(s);
      RetainAll(s, NotCombiningMark);
      Retain(Nfd(s), NotCombiningMark)
    else Retain(Nfd(s), NotCombiningMark)
  }

  // ---------------------------------------------------------------------------
  // Turning runs of white space into dashes (`replace(/\s+/g, '-')`)
  // ---------------------------------------------------------------------------

  /** `s.replace(/\s+/g, '-')`: every maximal run of white space becomes one
      dash; every other character is kept. */
  function CollapseSpace(s: string): (r: string)
    ensures forall i :: 0 <= i < |r| ==> !IsSpace(r[i])
    ensures forall i :: 0 <= i < |r| ==> r[i] == '-' || r[i] in s
    decreases |s|
  {
    if s == [] then []
    else if IsSpace(s[0]) then "-" + CollapseSpace(s[LeadingSpace(s)..])
    else [s[0]] + CollapseSpace(s[1..])
  }

  /** A string without white space has nothing to collapse. */
  lemma {:induction false} CollapseWithoutSpace(s: string)
    requires forall i :: 0 <= i < |s| ==> !IsSpace(s[i])
    ensures CollapseSpace(s) == s
    decreases |s|
  {
    if s != [] { CollapseWithoutSpace(s[1..]); }
  }

  /** Letters and digits: what a slug keeps besides its dashes. */
  predicate IsWordChar(c: char) {
    ('a' <= c <= 'z') || IsDigit(c)
  }

  /** Collapsing touches only white space: the letters and digits stay, in order. */
  lemma {:induction false} CollapseKeepsWords(s: string)
    ensures Retain(CollapseSpace(s), IsWordChar) == Retain(s, IsWordChar)
    decreases |s|
  {
    if s != [] {
      if IsSpace(s[0]) {
        var n := LeadingSpace(s);
        CollapseKeepsWords(s[n..]);
        assert s == s[..n] + s[n..];
        RetainConcat(s[..n], s[n..], IsWordChar);
        RetainNone(s[..n], IsWordChar);
        RetainConcat("-", CollapseSpace(s[n..]), IsWordChar);
      } else {
        CollapseKeepsWords(s[1..]);
        RetainConcat([s[0]], CollapseSpace(s[1..]), IsWordChar);
        RetainConcat([s[0]], s[1..], IsWordChar);
        assert [s[0]] + s[1..] == s;
      }
    }
  }

  lemma SpaceIsNotWordChar(c: char)
    requires IsSpace(c)
    ensures !IsWordChar(c)
  {}

  /** White space holds no letters or digits. */
  lemma RetainWordsOfSpace(s: string)
    requires AllSpace(s)
    ensures Retain(s, IsWordChar) == []
  {
    forall i | 0 <= i < |s| ensures !IsWordChar(s[i]) {
      SpaceIsNotWordChar(s[i]);
    }
    RetainNone(s, IsWordChar);
  }

  /** Trimming drops only white space: the letters and digits stay, in order. */
  lemma TrimKeepsWords(s: string)
    ensures Retain(Trim(s), IsWordChar) == Retain(s, IsWordChar)
  {
    var l := LeadingSpace(s);
    var t := Trim(s);
    var e := l + |t|;
    assert s == s[..l] + t + s[e..];
    RetainConcat(s[..l] + t, s[e..], IsWordChar);
    RetainConcat(s[..l], t, IsWordChar);
    RetainWordsOfSpace(s[..l]);
    RetainWordsOfSpace(s[e..]);
  }

  // ---------------------------------------------------------------------------
  // slugify
  // ---------------------------------------------------------------------------

  /** The characters `/[^a-z0-9\s-]/g` does not remove. */
  predicate IsSlugClass(c: char)
    ensures IsSlugClass(c) <==> IsSlugChar(c) || IsSpace(c)
  {
    ('a' <= c <= 'z') || IsDigit(c) || IsSpace(c) || c == '-'
  }

  /** The characters of a finished slug. */
  predicate IsSlugChar(c: char) {
    ('a' <= c <= 'z') || IsDigit(c) || c == '-'
  }

  lemma SlugCharIsNotSpace(c: char)
    requires IsSlugChar(c)
    ensures !IsSpace(c)
  {
  }

  /** The text as the filter step sees it: lower-cased, without accents. */
  function Fold(text: string): (r: string)
    ensures forall i :: 0 <= i < |r| ==> !IsCombiningMark(r[i])
  {
    StripAccents(Lower(text))
  }

  /** The first three passes: lower-case, strip accents, keep `[a-z0-9\s-]`.
      What is left is only characters of that class. */
  function Clean(text: string): (r: string)
    ensures forall i :: 0 <= i < |r| ==> IsSlugClass(r[i])
  {
    Retain(Fold(text), IsSlugClass)
  }

  /** The first three passes work character by character. */
  lemma CleanConcat(a: string, b: string)
    ensures Clean(a + b) == Clean(a) + Clean(b)
  {
    LowerConcat(a, b);
    NfdConcat(Lower(a), Lower(b));
    RetainConcat(Nfd(Lower(a)), Nfd(Lower(b)), NotCombiningMark);
    RetainConcat(Fold(a), Fold(b), IsSlugClass);
  }

  /** Trimming keeps only characters of the string it trims. */
  lemma TrimKeeps(s: string, keep: char -> bool)
    requires forall i :: 0 <= i < |s| ==> keep(s[i])
    ensures forall i :: 0 <= i < |Trim(s)| ==> keep(Trim(s)[i])
  {
    var t := Trim(s);
    forall i | 0 <= i < |t| ensures keep(t[i]) {
      assert t[i] == s[LeadingSpace(s) + i];
    }
  }

  /** `slugify(text)`; a missing or empty text is the empty string. The
      result is made only of lower-case ASCII letters, digits and dashes. */
  function Slugify(text: string): (r: string)
    ensures forall i :: 0 <= i < |r| ==> IsSlugChar(r[i])
  {
    var kept := Clean(text);
    TrimKeeps(kept, IsSlugClass);
    CollapseSpace(Trim(kept))
  }

  /** Lower-case ASCII letters, digits, dashes and spaces pass the first three
      passes unchanged. */
  lemma FoldKeepsPlain(s: string)
    requires forall i :: 0 <= i < |s| ==> IsSlugChar(s[i]) || s[i] == ' '
    ensures Clean(s) == s
  {
    LowerOfLower(s);
    NfdOfPlain(s);
    RetainAll(s, NotCombiningMark);
    RetainAll(s, IsSlugClass);
  }

  /** On lower-case ASCII words, dashes and spaces, with no space at either
      end, `slugify` only collapses the spaces. */
  lemma SlugifyOfPlain(s: string)
    requires forall i :: 0 <= i < |s| ==> IsSlugChar(s[i]) || s[i] == ' '
    requires s == [] || (s[0] != ' ' && s[|s| - 1] != ' ')
    ensures Slugify(s) == CollapseSpace(s)
  {
    FoldKeepsPlain(s);
    if s != [] {
      SlugCharIsNotSpace(s[0]);
      SlugCharIsNotSpace(s[|s| - 1]);
    }
    TrimOfTrimmed(s);
  }

  /** A string made of slug characters is its own slug. */
  lemma SlugifyOfSlug(s: string)
    requires forall i :: 0 <= i < |s| ==> IsSlugChar(s[i])
    ensures Slugify(s) == s
  {
    SlugifyOfPlain(s);
    CollapseWithoutSpace(s);
  }

  /** `slugify` is idempotent. */
  lemma SlugifyIdempotent(text: string)
    ensures Slugify(Slugify(text)) == Slugify(text)
  {
    SlugifyOfSlug(Slugify(text));
  }

  /** Apart from its dashes, a slug holds exactly the ASCII letters and digits
      of the lower-cased, accent-free text, in their order. */
  lemma SlugifyKeepsWords(text: string)
    ensures Retain(Slugify(text), IsWordChar) == Retain(Fold(text), IsWordChar)
  {
    var kept := Retain(Fold(text), IsSlugClass);
    CollapseKeepsWords(Trim(kept));
    TrimKeepsWords(kept);
    RetainNarrower(Fold(text), IsSlugClass, IsWordChar);
  }

  /** One space between two words becomes one dash. */
  lemma CollapseWord(a: string, b: string)
    requires forall i :: 0 <= i < |a| ==> !IsSpace(a[i])
    requires b == [] || !IsSpace(b[0])
    ensures CollapseSpace(a + " " + b) == a + "-" + CollapseSpace(b)
  {
    CollapseRun(a, " ", b);
  }

  /** A whole run of white space between two words becomes one dash: the `+`
      of `/\s+/g`. */
  lemma CollapseRun(a: string, w: string, b: string)
    requires forall i :: 0 <= i < |a| ==> !IsSpace(a[i])
    requires w != [] && AllSpace(w)
    requires b == [] || !IsSpace(b[0])
    ensures CollapseSpace(a + w + b) == a + "-" + CollapseSpace(b)
  {
    assert a + w + b == a + (w + b);
    CollapsePrefix(a, w + b);
    CollapseRunHead(w, b);
  }

  /** A prefix without white space passes through unchanged. */
  lemma {:induction false} CollapsePrefix(a: string, t: string)
    requires forall i :: 0 <= i < |a| ==> !IsSpace(a[i])
    ensures CollapseSpace(a + t) == a + CollapseSpace(t)
    decreases |a|
  {
    if a != [] {
      var u := a + t;
      assert u[0] == a[0] && u[1..] == a[1..] + t;
      CollapsePrefix(a[1..], t);
      assert CollapseSpace(u) == [a[0]] + CollapseSpace(u[1..]);
      assert [a[0]] + (a[1..] + CollapseSpace(t)) == a + CollapseSpace(t);
    } else {
      assert a + t == t;
    }
  }

  lemma CollapseRunHead(w: string, b: string)
    requires w != [] && AllSpace(w)
    requires b == [] || !IsSpace(b[0])
    ensures CollapseSpace(w + b) == "-" + CollapseSpace(b)
  {
    var s := w + b;
    LeadingSpaceOfRun(w, b);
    assert s[|w|..] == b;
  }

  /** The leading white space of `w + b` is exactly the run `w` when `b` does
      not start with white space. */
  lemma {:induction false} LeadingSpaceOfRun(w: string, b: string)
    requires AllSpace(w)
    requires b == [] || !IsSpace(b[0])
    ensures LeadingSpace(w + b) == |w|
    decreases |w|
  {
    if w == [] {
      assert w + b == b;
    } else {
      assert (w + b)[1..] == w[1..] + b;
      LeadingSpaceOfRun(w[1..], b);
    }
  }

  /** A non-empty run of letters and digits. */
  predicate IsWord(w: string) {
    w != [] && forall i :: 0 <= i < |w| ==> IsWordChar(w[i])
  }

  lemma {:induction false} JoinOfWords(ws: seq<string>)
    requires forall k :: 0 <= k < |ws| ==> IsWord(ws[k])
    ensures var t := Join(ws, ' ');
      (forall i :: 0 <= i < |t| ==> IsWordChar(t[i]) || t[i] == ' ')
      && (ws != [] <==> t != [])
      && (t != [] ==> IsWordChar(t[0]) && IsWordChar(t[|t| - 1]))
    decreases |ws|
  {
    if |ws| >= 2 {
      JoinOfWords(ws[1..]);
      var r := Join(ws[1..], ' ');
      var t := ws[0] + [' '] + r;
      assert Join(ws, ' ') == t;
      forall i | 0 <= i < |t| ensures IsWordChar(t[i]) || t[i] == ' ' {
        if i >= |ws[0]| + 1 { assert t[i] == r[i - |ws[0]| - 1]; }
      }
    }
  }

  /** Words joined by single spaces collapse to the words joined by dashes. */
  lemma {:induction false} CollapseJoin(ws: seq<string>)
    requires forall k :: 0 <= k < |ws| ==> IsWord(ws[k])
    ensures CollapseSpace(Join(ws, ' ')) == Join(ws, '-')
    decreases |ws|
  {
    if |ws| == 1 {
      CollapseWithoutSpace(ws[0]);
    } else if |ws| >= 2 {
      CollapseJoin(ws[1..]);
      JoinOfWords(ws[1..]);
      CollapseWord(ws[0], Join(ws[1..], ' '));
    }
  }

  /** Each word cleaned by the first three passes. */
  function CleanAll(ws: seq<string>): (cs: seq<string>)
    ensures |cs| == |ws|
  {
    seq(|ws|, k requires 0 <= k < |ws| => Clean(ws[k]))
  }

  lemma CleanSpace()
    ensures Clean([' ']) == [' ']
  {
    assert Lower([' ']) == [' '];
    assert Nfd([' ']) == [' '];
  }

  lemma CleanAroundSpace(a: string, b: string)
    ensures Clean(a + [' '] + b) == Clean(a) + [' '] + Clean(b)
  {
    CleanConcat(a + [' '], b);
    CleanConcat(a, [' ']);
    CleanSpace();
  }

  lemma {:induction false} CleanJoin(ws: seq<string>)
    ensures Clean(Join(ws, ' ')) == Join(CleanAll(ws), ' ')
    decreases |ws|
  {
    if |ws| == 0 {
      assert Lower([]) == [];
    } else if |ws| >= 2 {
      CleanJoin(ws[1..]);
      assert Join(ws, ' ') == ws[0] + [' '] + Join(ws[1..], ' ');
      CleanAroundSpace(ws[0], Join(ws[1..], ' '));
      var cs := CleanAll(ws);
      assert cs[1..] == CleanAll(ws[1..]);
      assert Join(cs, ' ') == cs[0] + [' '] + Join(cs[1..], ' ');
    }
  }

  /** `slugify` works word by word: on words separated by single spaces whose
      letters and digits survive the first three passes, the result is the
      cleaned words joined by dashes. */
  lemma SlugifyWordByWord(ws: seq<string>)
    requires forall k :: 0 <= k < |ws| ==> IsWord(CleanAll(ws)[k])
    ensures Slugify(Join(ws, ' ')) == Join(CleanAll(ws), '-')
  {
    var cs := CleanAll(ws);
    CleanJoin(ws);
    JoinOfWords(cs);
    SlugifyOfCleanWords(Join(ws, ' '), Join(cs, ' '));
    CollapseJoin(cs);
  }

  /** When the first three passes leave words separated by spaces, with a
      letter or digit at each end, trimming changes nothing. */
  lemma SlugifyOfCleanWords(text: string, t: string)
    requires Clean(text) == t
    requires t != [] ==> IsWordChar(t[0]) && IsWordChar(t[|t| - 1])
    ensures Slugify(text) == CollapseSpace(t)
  {
    if t != [] {
      WordCharIsNotSpace(t[0]);
      WordCharIsNotSpace(t[|t| - 1]);
    }
    TrimOfTrimmed(t);
  }

  lemma WordCharIsNotSpace(c: char)
    requires IsWordChar(c)
    ensures !IsSpace(c)
  {}

  /** Lower-casing first changes nothing: `slugify` ignores letter case. */
  lemma SlugifyIgnoresCase(text: string)
    ensures Slugify(Lower(text)) == Slugify(text)
  {
    LowerOfLower(Lower(text));
  }

  /** An ASCII word in any case loses nothing but its capitals. */
  lemma CleanOfAsciiWord(w: string)
    requires forall i :: 0 <= i < |w| ==> ('a' <= w[i] <= 'z') || ('A' <= w[i] <= 'Z')
    ensures Clean(w) == Lower(w)
  {
    LowerOfLower(Lower(w));
    FoldKeepsPlain(Lower(w));
  }

  // ---------------------------------------------------------------------------
  // Worked examples
  // ---------------------------------------------------------------------------

  /** Two slug words around a run of spaces: the run becomes one dash. */
  lemma SlugifyAroundSpaces(a: string, w: string, b: string)
    requires forall i :: 0 <= i < |a| ==> IsSlugChar(a[i])
    requires forall i :: 0 <= i < |b| ==> IsSlugChar(b[i])
    requires a != [] && b != []
    requires w != [] && forall i :: 0 <= i < |w| ==> w[i] == ' '
    ensures Slugify(a + w + b) == a + "-" + b
  {
    var s := a + w + b;
    forall i | 0 <= i < |s| ensures IsSlugChar(s[i]) || s[i] == ' ' {
      if i < |a| { assert s[i] == a[i]; }
      else if i < |a| + |w| { assert s[i] == w[i - |a|]; }
      else { assert s[i] == b[i - |a| - |w|]; }
    }
    assert s[0] == a[0] && s[|s| - 1] == b[|b| - 1];
    SlugCharIsNotSpace(a[0]);
    SlugCharIsNotSpace(b[|b| - 1]);
    SlugifyOfPlain(s);
    forall i | 0 <= i < |a| ensures !IsSpace(a[i]) { SlugCharIsNotSpace(a[i]); }
    forall i | 0 <= i < |b| ensures !IsSpace(b[i]) { SlugCharIsNotSpace(b[i]); }
    CollapseRun(a, w, b);
    CollapseWithoutSpace(b);
  }

  /** Two spaces in a row still give one dash. */
  lemma SlugifyDoubleSpace()
    ensures Slugify("a" + "  " + "b") == "a" + "-" + "b"
  {
    SlugifyAroundSpaces("a", "  ", "b");
  }

  lemma CleanAllOfThree(a: string, b: string, c: string)
    ensures CleanAll([a, b, c]) == [Clean(a), Clean(b), Clean(c)]
  {}

  lemma CleanMenu()
    ensures Clean("Menú") == "menu"
  {
    assert Lower("Menú") == "menú";
    assert Nfd("menú") == "menu\U{0301}";
    assert Retain("menu\U{0301}", NotCombiningMark) == "menu";
    assert Retain("menu", IsSlugClass) == "menu";
  }

  lemma CleanDe()
    ensures Clean("de") == "de"
  {
    assert forall i :: 0 <= i < |"de"| ==> ('a' <= "de"[i] <= 'z') || ('A' <= "de"[i] <= 'Z');
    assert Lower("de") == "de";
    CleanOfAsciiWord("de");
  }

  lemma CleanDescanso()
    ensures Clean("Descanso") == "descanso"
  {
    assert forall i :: 0 <= i < |"Descanso"| ==> ('a' <= "Descanso"[i] <= 'z') || ('A' <= "Descanso"[i] <= 'Z');
    assert Lower("Descanso") == "descanso";
    CleanOfAsciiWord("Descanso");
  }

  lemma CleanBang()
    ensures Clean("!") == ""
  {
    assert Lower("!") == "!";
    assert Nfd("!") == "!";
  }

  lemma CleanDescansoBang()
    ensures Clean("Descanso!") == "descanso"
  {
    assert "Descanso" + "!" == "Descanso!";
    CleanConcat("Descanso", "!");
    CleanDescanso();
    CleanBang();
  }

  lemma CleanAllMenu()
    ensures CleanAll(["Menú", "de", "Descanso!"]) == ["menu", "de", "descanso"]
  {
    CleanAllOfThree("Menú", "de", "Descanso!");
    CleanMenu();
    CleanDe();
    CleanDescansoBang();
  }

  lemma WordsMenu()
    ensures forall k :: 0 <= k < 3 ==> IsWord(["menu", "de", "descanso"][k])
  {}

  lemma JoinMenu()
    ensures Join(["Menú", "de", "Descanso!"], ' ') == "Menú de Descanso!"
  {}

  lemma JoinMenuSlug()
    ensures Join(["menu", "de", "descanso"], '-') == "menu-de-descanso"
  {}

  /** A title with an accent, capitals and punctuation. */
  lemma SlugifyMenu()
    ensures Slugify("Menú de Descanso!") == "menu-de-descanso"
  {
    CleanAllMenu();
    WordsMenu();
    SlugifyWordByWord(["Menú", "de", "Descanso!"]);
    JoinMenu();
    JoinMenuSlug();
  }

  lemma CleanNo()
    ensures Clean("No") == "no"
  {
    assert forall i :: 0 <= i < |"No"| ==> ('a' <= "No"[i] <= 'z') || ('A' <= "No"[i] <= 'Z');
    assert Lower("No") == "no";
    CleanOfAsciiWord("No");
  }

  lemma CleanCombat()
    ensures Clean("Combat") == "combat"
  {
    assert forall i :: 0 <= i < |"Combat"| ==> ('a' <= "Combat"[i] <= 'z') || ('A' <= "Combat"[i] <= 'Z');
    assert Lower("Combat") == "combat";
    CleanOfAsciiWord("Combat");
  }

  lemma CleanLogging()
    ensures Clean("Logging") == "logging"
  {
    assert forall i :: 0 <= i < |"Logging"| ==> ('a' <= "Logging"[i] <= 'z') || ('A' <= "Logging"[i] <= 'Z');
    assert Lower("Logging") == "logging";
    CleanOfAsciiWord("Logging");
  }

  lemma CleanAllNoCombatLogging()
    ensures CleanAll(["No", "Combat", "Logging"]) == ["no", "combat", "logging"]
  {
    CleanAllOfThree("No", "Combat", "Logging");
    CleanNo();
    CleanCombat();
    CleanLogging();
  }

  lemma WordsNoCombatLogging()
    ensures forall k :: 0 <= k < 3 ==> IsWord(["no", "combat", "logging"][k])
  {}

  lemma JoinNoCombatLogging()
    ensures Join(["No", "Combat", "Logging"], ' ') == "No Combat Logging"
  {}

  lemma JoinNoCombatLoggingSlug()
    ensures Join(["no", "combat", "logging"], '-') == "no-combat-logging"
  {}

  lemma SlugifyNoCombatLogging()
    ensures Slugify("No Combat Logging") == "no-combat-logging"
  {
    CleanAllNoCombatLogging();
    WordsNoCombatLogging();
    SlugifyWordByWord(["No", "Combat", "Logging"]);
    JoinNoCombatLogging();
    JoinNoCombatLoggingSlug();
  }

  /** The fallback title of a rule is its own slug. */
  lemma SlugifyRegla()
    ensures Slugify("regla") == "regla"
  {
    SlugifyOfSlug("regla");
  }

  lemma SlugifyA()
    ensures Slugify("A") == "a"
  {
    assert Lower("A") == "a";
    CleanOfAsciiWord("A");
    SlugifyOfCleanWords("A", "a");
    CollapseWithoutSpace("a");
  }

  lemma SlugifyEmpty()
    ensures Slugify("") == ""
  {
    assert Clean("") == "";
  }
}
