/**
 The "1C" localizer of tes3conv: a fixed table from the Russian alphabet to
 the Latin-1 characters that a single-byte (Windows-1251) plugin's bytes turn
 into when they are read as ISO/IEC 8859-1, its inverse, and the two
 character-by-character rewrites built on them.
 */
module Localizer {

  import opened Results

  /** The 66 letters of the Russian alphabet: А–Я and а–я (U+0410–U+044F), Ё and ё. */
  predicate IsRussianLetter(c: char) {
    ('А' <= c <= 'я') || c == 'Ё' || c == 'ё'
  }

  /** The 66 Latin-1 characters that stand for Russian letters: À–ÿ (U+00C0–U+00FF), ¨ and ¸. */
  predicate IsLegacyLetter(c: char) {
    ('À' <= c <= 'ÿ') || c == '¨' || c == '¸'
  }

  /** The Windows-1251 code position of a Russian letter, read as a Latin-1 code point.
      Windows-1251 puts А–я at 0xC0–0xFF, Ё at 0xA8 and ё at 0xB8. */
  function Cp1251Position(c: char): char
    requires IsRussianLetter(c)
  {
    if c == 'Ё' then '¨'
    else if c == 'ё' then '¸'
    else (c as int - 0x350) as char
  }

  /** The Russian letter that Windows-1251 stores at the code position `l`. */
  function Cp1251Letter(l: char): char
    requires IsLegacyLetter(l)
  {
    if l == '¨' then 'Ё'
    else if l == '¸' then 'ё'
    else (l as int + 0x350) as char
  }

  /** The literal pair list `mappings` of `Localizer::new`, one case per pair, in the source's order:
      the 1C character a Russian letter is written as, or None for any other character. */
  function TableEntry(c: char): Option<char> {
    match c
    case 'А' => Some('À')
    case 'Б' => Some('Á')
    case 'В' => Some('Â')
    case 'Г' => Some('Ã')
    case 'Д' => Some('Ä')
    case 'Е' => Some('Å')
    case 'Ж' => Some('Æ')
    case 'З' => Some('Ç')
    case 'И' => Some('È')
    case 'Й' => Some('É')
    case 'К' => Some('Ê')
    case 'Л' => Some('Ë')
    case 'М' => Some('Ì')
    case 'Н' => Some('Í')
    case 'О' => Some('Î')
    case 'П' => Some('Ï')
    case 'Р' => Some('Ð')
    case 'С' => Some('Ñ')
    case 'Т' => Some('Ò')
    case 'У' => Some('Ó')
    case 'Ф' => Some('Ô')
    case 'Х' => Some('Õ')
    case 'Ц' => Some('Ö')
    case 'Ч' => Some('×')
    case 'Ш' => Some('Ø')
    case 'Щ' => Some('Ù')
    case 'Ъ' => Some('Ú')
    case 'Ы' => Some('Û')
    case 'Ь' => Some('Ü')
    case 'Э' => Some('Ý')
    case 'Ю' => Some('Þ')
    case 'Я' => Some('ß')
    case 'а' => Some('à')
    case 'б' => Some('á')
    case 'в' => Some('â')
    case 'г' => Some('ã')
    case 'д' => Some('ä')
    case 'е' => Some('å')
    case 'ж' => Some('æ')
    case 'з' => Some('ç')
    case 'и' => Some('è')
    case 'й' => Some('é')
    case 'к' => Some('ê')
    case 'л' => Some('ë')
    case 'м' => Some('ì')
    case 'н' => Some('í')
    case 'о' => Some('î')
    case 'п' => Some('ï')
    case 'р' => Some('ð')
    case 'с' => Some('ñ')
    case 'т' => Some('ò')
    case 'у' => Some('ó')
    case 'ф' => Some('ô')
    case 'х' => Some('õ')
    case 'ц' => Some('ö')
    case 'ч' => Some('÷')
    case 'ш' => Some('ø')
    case 'щ' => Some('ù')
    case 'ъ' => Some('ú')
    case 'ы' => Some('û')
    case 'ь' => Some('ü')
    case 'э' => Some('ý')
    case 'ю' => Some('þ')
    case 'я' => Some('ÿ')
    case 'ё' => Some('¸')
    case 'Ё' => Some('¨')
    case _ => None
  }

  /** The map `russian_to_1c`: every pair of the list inserted. All keys lie between Ё (U+0401) and ё (U+0451). */
  const RussianTo1C: map<char, char> := map c | 'Ё' <= c <= 'ё' && TableEntry(c).Some? :: TableEntry(c).value

  /** No two keys of `m` share a value. */
  ghost predicate Injective(m: map<char, char>) {
    forall x, y | x in m && y in m && x != y :: m[x] != m[y]
  }

  /** A character has a table entry exactly when it is a Russian letter, and the entry is its Windows-1251 position. */
  lemma EntryIsCp1251(c: char)
    ensures TableEntry(c).Some? <==> IsRussianLetter(c)
    ensures TableEntry(c).Some? ==> TableEntry(c).value == Cp1251Position(c)
  {
  }

  /** The table holds exactly the Russian alphabet, each letter sent to its Windows-1251 position. */
  lemma TableIsCp1251()
    ensures forall c :: c in RussianTo1C <==> IsRussianLetter(c)
    ensures forall c | c in RussianTo1C :: RussianTo1C[c] == Cp1251Position(c)
  {
    forall c {
      EntryIsCp1251(c);
    }
  }

  /** The Windows-1251 position and letter functions undo each other between the two alphabets. */
  lemma Cp1251Bijection(c: char, l: char)
    ensures IsRussianLetter(c) ==> IsLegacyLetter(Cp1251Position(c)) && Cp1251Letter(Cp1251Position(c)) == c
    ensures IsLegacyLetter(l) ==> IsRussianLetter(Cp1251Letter(l)) && Cp1251Position(Cp1251Letter(l)) == l
  {
  }

  /** No character is both a Russian letter and a 1C character. */
  lemma AlphabetsDisjoint(c: char)
    ensures !(IsRussianLetter(c) && IsLegacyLetter(c))
  {
  }

  /** Distinct Russian letters are written as distinct 1C characters (so Ч/× and ч/÷ do not collide). */
  lemma TableInjective()
    ensures Injective(RussianTo1C)
  {
    TableIsCp1251();
    forall x, y | x in RussianTo1C && y in RussianTo1C && x != y
      ensures RussianTo1C[x] != RussianTo1C[y]
    {
      Cp1251Bijection(x, RussianTo1C[x]);
      Cp1251Bijection(y, RussianTo1C[y]);
    }
  }

  /** The flip loop of `Localizer::new`: every pair (k, v) of `m` inserted as (v, k).
      On an injective map the result does not depend on the order the pairs are visited in. */
  function Invert(m: map<char, char>): (inv: map<char, char>)
    requires Injective(m)
    ensures inv.Keys == m.Values
    ensures forall k | k in m :: inv[m[k]] == k
  {
    map k | k in m :: m[k] := k
  }

  /** Flipping the table gives exactly the Windows-1251 decoding of the 66 1C characters. */
  lemma InvertedTableIsCp1251()
    ensures Injective(RussianTo1C)
    ensures forall l :: l in Invert(RussianTo1C) <==> IsLegacyLetter(l)
    ensures forall l | l in Invert(RussianTo1C) :: Invert(RussianTo1C)[l] == Cp1251Letter(l)
  {
    TableInjective();
    TableIsCp1251();
    var inv := Invert(RussianTo1C);
    forall l
      ensures l in inv <==> IsLegacyLetter(l)
      ensures l in inv ==> inv[l] == Cp1251Letter(l)
    {
      if IsLegacyLetter(l) {
        var c := Cp1251Letter(l);
        Cp1251Bijection(c, l);
        assert RussianTo1C[c] == l;
      }
      if l in inv {
        var c :| c in RussianTo1C && RussianTo1C[c] == l;
        Cp1251Bijection(c, l);
      }
    }
  }

  /** The map `c1_to_russian`: the table flipped. Its keys are exactly the 1C characters,
      each sent back to the Russian letter Windows-1251 stores there. */
  function C1ToRussian(): (m: map<char, char>)
    ensures forall l :: l in m <==> IsLegacyLetter(l)
    ensures forall l | l in m :: m[l] == Cp1251Letter(l)
  {
    InvertedTableIsCp1251();
    Invert(RussianTo1C)
  }

  /** `c1_to_russian` is the exact functional inverse of `russian_to_1c`. */
  lemma InverseIsExact()
    ensures C1ToRussian().Keys == RussianTo1C.Values
    ensures forall c | c in RussianTo1C :: C1ToRussian()[RussianTo1C[c]] == c
    ensures forall l | l in C1ToRussian() :: C1ToRussian()[l] in RussianTo1C && RussianTo1C[C1ToRussian()[l]] == l
  {
    InvertedTableIsCp1251();
  }

  /** Rewrites `s` one character at a time through `table`; a character without an entry is kept. */
  function Rewrite(table: map<char, char>, s: string): (r: string)
    ensures |r| == |s|
    ensures forall i | 0 <= i < |s| && s[i] in table :: r[i] == table[s[i]]
    ensures forall i | 0 <= i < |s| && s[i] !in table :: r[i] == s[i]
  {
    if s == [] then []
    else [if s[0] in table then table[s[0]] else s[0]] + Rewrite(table, s[1..])
  }

  /** `to_russian`: every 1C character back to its Russian letter, every other character unchanged. */
  function ToRussian(text: string): (r: string)
    ensures |r| == |text|
    ensures forall i | 0 <= i < |text| && IsLegacyLetter(text[i]) :: r[i] == Cp1251Letter(text[i])
    ensures forall i | 0 <= i < |text| && !IsLegacyLetter(text[i]) :: r[i] == text[i]
  {
    Rewrite(C1ToRussian(), text)
  }

  /** `from_russian`: every Russian letter to its 1C character, every other character unchanged. */
  function FromRussian(text: string): (r: string)
    ensures |r| == |text|
    ensures forall i | 0 <= i < |text| && IsRussianLetter(text[i]) :: r[i] == Cp1251Position(text[i])
    ensures forall i | 0 <= i < |text| && !IsRussianLetter(text[i]) :: r[i] == text[i]
  {
    TableIsCp1251();
    Rewrite(RussianTo1C, text)
  }

  /** Text without Russian letters, which is all that `from_russian` can produce. */
  predicate NoRussian(s: string) {
    forall i | 0 <= i < |s| :: !IsRussianLetter(s[i])
  }

  /** Text without 1C characters, which is all that `to_russian` can produce. */
  predicate NoLegacy(s: string) {
    forall i | 0 <= i < |s| :: !IsLegacyLetter(s[i])
  }

  /** `from_russian` removes every Russian letter and `to_russian` every 1C character. */
  lemma RewritesClearTheirDomain(s: string)
    ensures NoRussian(FromRussian(s))
    ensures NoLegacy(ToRussian(s))
  {
    forall i | 0 <= i < |s|
      ensures !IsRussianLetter(FromRussian(s)[i]) && !IsLegacyLetter(ToRussian(s)[i])
    {
      AlphabetsDisjoint(s[i]);
      Cp1251Bijection(s[i], s[i]);
    }
  }

  /** `to_russian` undoes `from_russian` on `s` exactly when `s` holds no 1C character. */
  lemma FromThenToRestores(s: string)
    ensures ToRussian(FromRussian(s)) == s <==> NoLegacy(s)
  {
    var back := ToRussian(FromRussian(s));
    if NoLegacy(s) {
      forall i | 0 <= i < |s|
        ensures back[i] == s[i]
      {
        Cp1251Bijection(s[i], s[i]);
      }
    } else {
      var i :| 0 <= i < |s| && IsLegacyLetter(s[i]);
      AlphabetsDisjoint(s[i]);
      Cp1251Bijection(s[i], s[i]);
      assert back[i] != s[i];
    }
  }

  /** `from_russian` undoes `to_russian` on `t` exactly when `t` holds no Russian letter. */
  lemma ToThenFromRestores(t: string)
    ensures FromRussian(ToRussian(t)) == t <==> NoRussian(t)
  {
    var back := FromRussian(ToRussian(t));
    if NoRussian(t) {
      forall i | 0 <= i < |t|
        ensures back[i] == t[i]
      {
        Cp1251Bijection(t[i], t[i]);
      }
    } else {
      var i :| 0 <= i < |t| && IsRussianLetter(t[i]);
      AlphabetsDisjoint(t[i]);
      Cp1251Bijection(t[i], t[i]);
      assert back[i] != t[i];
    }
  }

  /** Applying either rewrite a second time changes nothing. */
  lemma RewritesIdempotent(s: string)
    ensures FromRussian(FromRussian(s)) == FromRussian(s)
    ensures ToRussian(ToRussian(s)) == ToRussian(s)
  {
    RewritesClearTheirDomain(s);
  }

  /** The greeting "Привет" and its 1C form "Ïðèâåò" rewrite into each other. */
  lemma GreetingRewrites()
    ensures ToRussian("Ïðèâåò") == "Привет"
    ensures FromRussian("Привет") == "Ïðèâåò"
  {
  }
}
