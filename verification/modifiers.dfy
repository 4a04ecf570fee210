/** The modifier keywords of com.thesis.file.TextMaker.appendAccess: the
    fixed table of flags and keywords, the text it prints, and the proofs
    that the text decodes back to the flags. The proofs are stated over any
    well-formed table and then applied to the one appendAccess uses. */
module Modifiers {

  import opened Text
  import opened Access

  datatype Modifier = Modifier(flag: bv32, keyword: string)

  /** The flags appendAccess tests, in the order it prints them. */
  const MODIFIERS: seq<Modifier> := [
    Modifier(ACC_PRIVATE, "private"),
    Modifier(ACC_PUBLIC, "public"),
    Modifier(ACC_PROTECTED, "protected"),
    Modifier(ACC_FINAL, "final"),
    Modifier(ACC_STATIC, "static"),
    Modifier(ACC_SYNCHRONIZED, "synchronized"),
    Modifier(ACC_VOLATILE, "volatile"),
    Modifier(ACC_TRANSIENT, "transient"),
    Modifier(ACC_ABSTRACT, "abstract"),
    Modifier(ACC_STRICT, "strictfp"),
    Modifier(ACC_SYNTHETIC, "synthetic"),
    Modifier(ACC_MANDATED, "mandated"),
    Modifier(ACC_ENUM, "enum")]

  /** A word that can be read back from a space-separated text. */
  predicate Clean(word: string) {
    word != "" && ' ' !in word
  }

  /** Every keyword clean, no keyword twice. */
  predicate WellFormed(t: seq<Modifier>) {
    && (forall i :: 0 <= i < |t| ==> Clean(t[i].keyword))
    && (forall i, j :: 0 <= i < |t| && 0 <= j < |t| && i != j ==> t[i].keyword != t[j].keyword)
  }

  lemma EntryWellFormed(i: nat)
    requires i < |MODIFIERS|
    ensures Clean(MODIFIERS[i].keyword)
  {
  }

  /** The table entry of a keyword, told apart by its length and first
      letter; -1 for a word that is no keyword of the table's shape. */
  function KeywordIndex(word: string): int {
    if word == "" then -1
    else
      match (|word|, word[0])
      case (7, 'p') => 0
      case (6, 'p') => 1
      case (9, 'p') => 2
      case (5, 'f') => 3
      case (6, 's') => 4
      case (12, 's') => 5
      case (8, 'v') => 6
      case (9, 't') => 7
      case (8, 'a') => 8
      case (8, 's') => 9
      case (9, 's') => 10
      case (8, 'm') => 11
      case (4, 'e') => 12
      case _ => -1
  }

  /** Each keyword leads back to its own entry. */
  lemma KeywordIndexOf(i: nat)
    requires i < |MODIFIERS|
    ensures KeywordIndex(MODIFIERS[i].keyword) == i
  {
  }

  lemma KeywordsDistinct(i: nat, j: nat)
    requires i < |MODIFIERS| && j < |MODIFIERS| && i != j
    ensures MODIFIERS[i].keyword != MODIFIERS[j].keyword
  {
    KeywordIndexOf(i);
    KeywordIndexOf(j);
  }

  lemma ModifiersWellFormed()
    ensures WellFormed(MODIFIERS)
  {
    forall i | 0 <= i < |MODIFIERS| ensures Clean(MODIFIERS[i].keyword) {
      EntryWellFormed(i);
    }
    forall i, j | 0 <= i < |MODIFIERS| && 0 <= j < |MODIFIERS| && i != j
      ensures MODIFIERS[i].keyword != MODIFIERS[j].keyword
    {
      KeywordsDistinct(i, j);
    }
  }

  /** The keywords of the set flags of t[from..], in table order. */
  function Keywords(t: seq<Modifier>, access: bv32, from: nat): (r: seq<string>)
    requires from <= |t|
    ensures |r| <= |t| - from
    decreases |t| - from
  {
    if from == |t| then []
    else (if HasFlag(access, t[from].flag) then [t[from].keyword] else []) + Keywords(t, access, from + 1)
  }

  /** Each word followed by one space. */
  function Spaced(words: seq<string>): string {
    if words == [] then "" else words[0] + " " + Spaced(words[1..])
  }

  /** appendAccess: each set flag's keyword and a space, in the fixed order
      private, public, protected, final, static, synchronized, volatile,
      transient, abstract, strictfp, synthetic, mandated, enum. */
  function AppendAccess(access: bv32): (r: string)
    ensures Words(r) == Keywords(MODIFIERS, access, 0)
  {
    ModifiersWellFormed();
    KeywordsClean(MODIFIERS, access, 0);
    WordsOfSpaced(Keywords(MODIFIERS, access, 0));
    Spaced(Keywords(MODIFIERS, access, 0))
  }

  /** A keyword is listed exactly when its flag is set. */
  lemma {:induction false} KeywordListed(t: seq<Modifier>, access: bv32, from: nat, i: nat)
    requires WellFormed(t) && from <= |t| && i < |t|
    ensures t[i].keyword in Keywords(t, access, from) <==> from <= i && HasFlag(access, t[i].flag)
    decreases |t| - from
  {
    if from < |t| {
      KeywordListed(t, access, from + 1, i);
      var head := if HasFlag(access, t[from].flag) then [t[from].keyword] else [];
      assert Keywords(t, access, from) == head + Keywords(t, access, from + 1);
      assert t[i].keyword in head <==> from == i && HasFlag(access, t[i].flag) by {
        if from != i {
          assert t[from].keyword != t[i].keyword;
        }
      }
    }
  }

  /** ACC_SUPER shares its bit with ACC_SYNCHRONIZED and is cleared before a
      class header prints its modifiers, so a class header never says
      "synchronized". */
  lemma NeverSynchronized(access: bv32)
    ensures "synchronized" !in Keywords(MODIFIERS, Clear(access, ACC_SUPER), 0)
  {
    ModifiersWellFormed();
    KeywordListed(MODIFIERS, Clear(access, ACC_SUPER), 0, 5);
  }

  /** The words of a text in which every word ends with a space. */
  function Words(s: string): seq<string>
    decreases |s|
  {
    if s == "" then []
    else
      var k := IndexOf(s, " ");
      if k < 0 then [s] else [s[..k]] + Words(s[k + 1..])
  }

  /** Words undoes Spaced when no word holds a space. */
  lemma {:induction false} WordsOfSpaced(words: seq<string>)
    requires forall i :: 0 <= i < |words| ==> ' ' !in words[i]
    ensures Words(Spaced(words)) == words
  {
    if words != [] {
      var w := words[0];
      var rest := Spaced(words[1..]);
      FirstWord(w, rest);
      assert Spaced(words) == w + " " + rest;
      WordsOfSpaced(words[1..]);
    }
  }

  /** A word without a space, then a space: the first word is that word and
      the words after it are those of the rest. */
  lemma FirstWord(w: string, rest: string)
    requires ' ' !in w
    ensures Words(w + " " + rest) == [w] + Words(rest)
  {
    var s := w + " " + rest;
    assert OccursAt(s, " ", |w|) by { assert s[|w|..|w| + 1] == " "; }
    forall k | 0 <= k < |w| ensures !OccursAt(s, " ", k) {
      assert s[k..k + 1][0] == w[k];
      assert w[k] in w;
    }
    assert IndexOf(s, " ") == |w|;
    assert s[..|w|] == w;
    assert s[|w| + 1..] == rest;
  }

  lemma {:induction false} KeywordsClean(t: seq<Modifier>, access: bv32, from: nat)
    requires WellFormed(t) && from <= |t|
    ensures forall j :: 0 <= j < |Keywords(t, access, from)| ==> Clean(Keywords(t, access, from)[j])
    decreases |t| - from
  {
    if from < |t| {
      KeywordsClean(t, access, from + 1);
    }
  }

  /** The printed modifiers decode back to the access word: a keyword of
      the table is among the words of appendAccess's text exactly when its
      flag is set, and every word is a keyword of the table. */
  lemma ModifiersDecode(access: bv32)
    ensures forall i :: 0 <= i < |MODIFIERS| ==>
              (MODIFIERS[i].keyword in Words(AppendAccess(access)) <==> HasFlag(access, MODIFIERS[i].flag))
    ensures forall j :: 0 <= j < |Words(AppendAccess(access))| ==>
              exists e :: 0 <= e < |MODIFIERS| && Words(AppendAccess(access))[j] == MODIFIERS[e].keyword
  {
    ModifiersWellFormed();
    var ks := Keywords(MODIFIERS, access, 0);
    KeywordsClean(MODIFIERS, access, 0);
    WordsOfSpaced(ks);
    KeywordsFromTable(MODIFIERS, access, 0);
    forall i | 0 <= i < |MODIFIERS|
      ensures MODIFIERS[i].keyword in ks <==> HasFlag(access, MODIFIERS[i].flag)
    {
      KeywordListed(MODIFIERS, access, 0, i);
    }
  }

  /** Word j of a spaced text sits after the words before it. */
  lemma {:induction false} SpacedAt(words: seq<string>, j: nat)
    requires j < |words|
    ensures OccursAt(Spaced(words), words[j] + " ", |Spaced(words[..j])|)
  {
    if j == 0 {
      assert Spaced(words[..0]) == "";
      var s := Spaced(words);
      assert s[..|words[0]| + 1] == words[0] + " ";
    } else {
      SpacedAt(words[1..], j - 1);
      assert words[1..][..j - 1] == words[..j][1..];
      assert Spaced(words[..j]) == words[0] + " " + Spaced(words[1..][..j - 1]);
      var s := Spaced(words);
      var off := |words[0]| + 1;
      var t := Spaced(words[1..]);
      assert s == words[0] + " " + t;
      var p := |Spaced(words[1..][..j - 1])|;
      assert s[off + p..off + p + |words[j]| + 1] == t[p..p + |words[j]| + 1];
    }
  }

  /** A set flag's keyword and its space occur in the printed text. */
  lemma KeywordPrinted(t: seq<Modifier>, access: bv32, i: nat)
    requires WellFormed(t) && i < |t| && HasFlag(access, t[i].flag)
    ensures exists k :: OccursAt(Spaced(Keywords(t, access, 0)), t[i].keyword + " ", k)
  {
    KeywordListed(t, access, 0, i);
    var ks := Keywords(t, access, 0);
    var j :| 0 <= j < |ks| && ks[j] == t[i].keyword;
    SpacedAt(ks, j);
  }

  /** w ends v and is shorter. */
  predicate ProperSuffix(w: string, v: string) {
    |w| < |v| && v[|v| - |w|..] == w
  }

  /** In a text starting with v + " ", an occurrence of w + " " at an
      offset within v is v itself, when both are clean and w does not end
      v. */
  lemma {:induction false} WordUnambiguous(v: string, w: string, k: nat, s: string)
    requires Clean(v) && Clean(w) && !ProperSuffix(w, v)
    requires |v| + 1 <= |s| && s[..|v| + 1] == v + " "
    requires k <= |v| && OccursAt(s, w + " ", k)
    ensures v == w && k == 0
  {
    assert s[k..k + |w| + 1] == w + " ";
    assert s[|v|] == ' ';
    forall j | 0 <= j < |v| ensures s[j] != ' ' {
      assert s[j] == v[j];
      assert v[j] in v;
    }
    forall j | k <= j < k + |w| ensures s[j] != ' ' {
      assert s[j] == s[k..k + |w| + 1][j - k] == w[j - k];
      assert w[j - k] in w;
    }
    assert s[k + |w|] == ' ';
    assert k + |w| == |v|;
    assert v[|v| - |w|..] == w by {
      assert forall j :: 0 <= j < |w| ==> v[|v| - |w| + j] == s[k + j] == w[j];
    }
    assert v == s[..|v|];
  }

  /** In a spaced text of clean words none of which w properly ends, an
      occurrence of w + " " is one of the words. */
  lemma {:induction false} SpacedWordAt(words: seq<string>, k: nat, w: string)
    requires forall j :: 0 <= j < |words| ==> Clean(words[j]) && !ProperSuffix(w, words[j])
    requires Clean(w) && OccursAt(Spaced(words), w + " ", k)
    ensures w in words
  {
    assert words != [];
    var v := words[0];
    var s := Spaced(words);
    var t := Spaced(words[1..]);
    assert s == v + " " + t;
    if k <= |v| {
      assert s[..|v| + 1] == v + " ";
      WordUnambiguous(v, w, k, s);
    } else {
      assert s[k..k + |w| + 1] == t[k - |v| - 1..k - |v| - 1 + |w| + 1];
      SpacedWordAt(words[1..], k - |v| - 1, w);
    }
  }

  /** The keyword of a flag that is not set occurs nowhere in the printed
      text, provided it ends no keyword of the table. */
  lemma KeywordAbsent(t: seq<Modifier>, access: bv32, i: nat)
    requires WellFormed(t) && i < |t| && !HasFlag(access, t[i].flag)
    requires forall j :: 0 <= j < |t| ==> !ProperSuffix(t[i].keyword, t[j].keyword)
    ensures IndexOf(Spaced(Keywords(t, access, 0)), t[i].keyword + " ") == -1
  {
    var w := t[i].keyword;
    var ks := Keywords(t, access, 0);
    KeywordListed(t, access, 0, i);
    KeywordsClean(t, access, 0);
    KeywordsFromTable(t, access, 0);
    forall j | 0 <= j < |ks| ensures Clean(ks[j]) && !ProperSuffix(w, ks[j]) {
      var e :| 0 <= e < |t| && ks[j] == t[e].keyword;
    }
    forall k | 0 <= k <= |Spaced(ks)| - |w + " "| ensures !OccursAt(Spaced(ks), w + " ", k) {
      if OccursAt(Spaced(ks), w + " ", k) {
        SpacedWordAt(ks, k, w);
      }
    }
  }

  lemma {:induction false} KeywordsFromTable(t: seq<Modifier>, access: bv32, from: nat)
    requires from <= |t|
    ensures forall j :: 0 <= j < |Keywords(t, access, from)| ==>
              exists e :: 0 <= e < |t| && Keywords(t, access, from)[j] == t[e].keyword
    decreases |t| - from
  {
    if from < |t| {
      KeywordsFromTable(t, access, from + 1);
      var head := if HasFlag(access, t[from].flag) then [t[from].keyword] else [];
      var rest := Keywords(t, access, from + 1);
      var ks := Keywords(t, access, from);
      assert ks == head + rest;
      forall j | 0 <= j < |ks| ensures exists e :: 0 <= e < |t| && ks[j] == t[e].keyword {
        if j < |head| {
          assert ks[j] == t[from].keyword;
        } else {
          assert ks[j] == rest[j - |head|];
        }
      }
    } else {
      assert Keywords(t, access, from) == [];
    }
  }

  lemma FinalEndsNoKeyword(j: nat)
    requires j < |MODIFIERS|
    ensures !ProperSuffix("final", MODIFIERS[j].keyword)
  {
    var v := MODIFIERS[j].keyword;
    if |v| > 5 {
      assert v[|v| - 1] != 'l';
      assert v[|v| - 5..][4] == v[|v| - 1];
    }
  }

  /** Without ACC_FINAL, "final " occurs nowhere in the modifiers. */
  lemma NoFinalWithoutFlag(access: bv32)
    requires !HasFlag(access, ACC_FINAL)
    ensures IndexOf(AppendAccess(access), "final ") == -1
  {
    ModifiersWellFormed();
    forall j | 0 <= j < |MODIFIERS| ensures !ProperSuffix(MODIFIERS[3].keyword, MODIFIERS[j].keyword) {
      FinalEndsNoKeyword(j);
    }
    KeywordAbsent(MODIFIERS, access, 3);
    assert MODIFIERS[3].keyword + " " == "final ";
  }

  /** With ACC_ABSTRACT, "abstract " occurs in the modifiers. */
  lemma AbstractPrinted(access: bv32)
    requires HasFlag(access, ACC_ABSTRACT)
    ensures exists k :: OccursAt(AppendAccess(access), "abstract ", k)
  {
    ModifiersWellFormed();
    KeywordPrinted(MODIFIERS, access, 8);
    assert MODIFIERS[8].keyword + " " == "abstract ";
    var k :| OccursAt(Spaced(Keywords(MODIFIERS, access, 0)), MODIFIERS[8].keyword + " ", k);
    assert OccursAt(AppendAccess(access), "abstract ", k);
  }
}
