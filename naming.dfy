/**
 * How the engine names things: the table that holds a stock code's stickers,
 * the table that holds a person's assigned items, and the sticker code
 * itself (database.py:54, 78 and 154-156).
 */
module Naming {
  import opened Wrappers
  import opened Text

  // ---------------------------------------------------------------------------
  // Table names
  // ---------------------------------------------------------------------------

  /**
   * `f"stok_{code.replace(' ', '').replace('-', '_')}"`: the sticker table of a
   * stock code.
   */
  function StockTableName(code: string): (r: string)
    ensures |r| >= 5 && r[..5] == "stok_"
    ensures ' ' !in r && '-' !in r
  {
    var body := Replace(Remove(code, ' '), '-', '_');
    assert ' ' !in body by {
      forall i | 0 <= i < |body| ensures body[i] != ' ' {
        assert Remove(code, ' ')[i] in Remove(code, ' ');
      }
    }
    assert "stok_" + body == "stok_" + body;
    "stok_" + body
  }

  /**
   * A character SQLite's tokenizer accepts inside an unquoted identifier:
   * an ASCII letter or digit, `_`, `$`, or any character outside ASCII.
   */
  predicate IsIdentifierChar(c: char)
  {
    'a' <= c <= 'z' || 'A' <= c <= 'Z' || '0' <= c <= '9' || c == '_' || c == '$' || c as int >= 0x80
  }

  /**
   * The sticker table name is spliced into its statements unquoted
   * (database.py:55-56, 214, 221, 270, 276, 302, 390, 407), so a statement
   * on it parses only when the whole name is one identifier token.
   */
  predicate IsBareName(name: string)
  {
    forall i | 0 <= i < |name| :: IsIdentifierChar(name[i])
  }

  /** A stock code with a `/` names no table SQLite can parse. */
  lemma SlashCodeNamesNoTable()
    ensures !IsBareName(StockTableName("PC/01"))
  {
    RemoveAbsent("PC/01", ' ');
    assert Replace("PC/01", '-', '_') == "PC/01";
    assert StockTableName("PC/01")[7] == '/';
  }

  /** A stock code of letters, digits and hyphens always names a parseable table. */
  lemma PlainCodeNamesTable(code: string)
    requires forall i | 0 <= i < |code| :: IsIdentifierChar(code[i]) || code[i] == '-'
    ensures IsBareName(StockTableName(code))
  {
    assert ' ' !in code by {
      forall i | 0 <= i < |code| ensures code[i] != ' ' { }
    }
    RemoveAbsent(code, ' ');
    var body := Replace(code, '-', '_');
    assert StockTableName(code) == "stok_" + body;
    assert forall i | 0 <= i < |body| :: IsIdentifierChar(body[i]);
  }

  /** A stock code without spaces or hyphens keeps its own spelling in its table name. */
  lemma StockTableNameOfPlainCode(code: string)
    requires ' ' !in code && '-' !in code
    ensures StockTableName(code) == "stok_" + code
  {
    RemoveAbsent(code, ' ');
  }

  /** Different stock codes can share one sticker table. */
  lemma StockCodesShareTable()
    ensures StockTableName("A B") == StockTableName("AB")
    ensures StockTableName("A-B") == StockTableName("A_B")
  {
    assert Remove("A B", ' ') == "AB";
    RemoveAbsent("AB", ' ');
    RemoveAbsent("A-B", ' ');
    RemoveAbsent("A_B", ' ');
    assert Replace("A-B", '-', '_') == "A_B";
    assert Replace("A_B", '-', '_') == "A_B";
  }

  const ItemsSuffix: string := "_malzemeleri"

  /**
   * `f"{name}_malzemeleri".replace(' ', '').lower()`: the table that holds
   * the items assigned to a person.
   */
  function PersonTableName(name: string): (r: string)
    ensures ' ' !in r
    ensures forall i :: 0 <= i < |r| ==> !IsUpper(r[i])
  {
    var r := Lower(Remove(name + ItemsSuffix, ' '));
    assert ' ' !in r by {
      forall i | 0 <= i < |r| ensures r[i] != ' ' {
        assert Remove(name + ItemsSuffix, ' ')[i] in Remove(name + ItemsSuffix, ' ');
      }
    }
    r
  }

  lemma SqueezeWithSuffix(name: string)
    ensures Remove(name + ItemsSuffix, ' ') == Remove(name, ' ') + ItemsSuffix
  {
    RemoveAppend(name, ItemsSuffix, ' ');
    RemoveAbsent(ItemsSuffix, ' ');
  }

  lemma SuffixIsLower()
    ensures Lower(ItemsSuffix) == ItemsSuffix
  {
    LowerOfLower(ItemsSuffix);
  }

  lemma LowerWithSuffix(s: string)
    ensures Lower(s + ItemsSuffix) == Lower(s) + ItemsSuffix
  {
    LowerAppend(s, ItemsSuffix);
    SuffixIsLower();
  }

  /** The person table name is the squeezed, lowercased name followed by the suffix. */
  lemma PersonTableNameShape(name: string)
    ensures PersonTableName(name) == Lower(Remove(name, ' ')) + ItemsSuffix
  {
    assert PersonTableName(name) == Lower(Remove(name + ItemsSuffix, ' '));
    SqueezeWithSuffix(name);
    LowerWithSuffix(Remove(name, ' '));
  }

  /** Two names share a person table exactly when they agree once spaces are dropped and letters lowered. */
  lemma SamePersonTable(a: string, b: string)
    ensures PersonTableName(a) == PersonTableName(b) <==> Lower(Remove(a, ' ')) == Lower(Remove(b, ' '))
  {
    PersonTableNameShape(a);
    PersonTableNameShape(b);
    var x, y := Lower(Remove(a, ' ')), Lower(Remove(b, ' '));
    if x + ItemsSuffix == y + ItemsSuffix {
      assert x == (x + ItemsSuffix)[..|x|];
      assert y == (y + ItemsSuffix)[..|y|];
    }
  }

  /** Dropping the one space between two space-free words joins them. */
  lemma SqueezeOneSpace(a: string, b: string)
    requires ' ' !in a && ' ' !in b
    ensures Remove(a + " " + b, ' ') == a + b
  {
    var t := [' '] + b;
    assert a + " " + b == a + t;
    RemoveAppend(a, t, ' ');
    RemoveAbsent(a, ' ');
    assert Remove(t, ' ') == Remove(t[1..], ' ');
    assert t[1..] == b;
    RemoveAbsent(b, ' ');
  }

  lemma SqueezeAliVeli()
    ensures Remove("Ali Veli", ' ') == "AliVeli"
  {
    assert "Ali Veli" == "Ali" + " " + "Veli";
    SqueezeOneSpace("Ali", "Veli");
  }

  lemma LowerAliVeli()
    ensures Lower("AliVeli") == "aliveli"
  {
    var l := Lower("AliVeli");
    assert LowerChar('A') == 'a' && LowerChar('V') == 'v';
    assert l[0] == 'a' && l[1] == 'l' && l[2] == 'i' && l[3] == 'v' && l[4] == 'e' && l[5] == 'l' && l[6] == 'i';
  }

  /** Names that are distinct people (the duplicate check compares exact names) can map to one table. */
  lemma DistinctNamesShareTable()
    ensures "Ali Veli" != "aliveli"
    ensures PersonTableName("Ali Veli") == PersonTableName("aliveli")
  {
    assert "Ali Veli"[0] != "aliveli"[0];
    SqueezeAliVeli();
    RemoveAbsent("aliveli", ' ');
    LowerAliVeli();
    LowerOfLower("aliveli");
    SamePersonTable("Ali Veli", "aliveli");
  }

  /**
   * The person table name is spliced between double quotes (database.py:80,
   * 142, 246, 328, 335, 464, 535, 543, 549, 680). Inside `"…"` SQLite ends
   * the identifier at the first `"` that is not doubled, so such a statement
   * parses only when every `"` of the name opens a `""` pair.
   */
  predicate QuotesPaired(name: string)
    decreases |name|
  {
    if name == [] then true
    else if name[0] != '"' then QuotesPaired(name[1..])
    else 2 <= |name| && name[1] == '"' && QuotesPaired(name[2..])
  }

  /** SQLite refuses to create a table, or rename one, under a name starting with `sqlite_` in any case. */
  predicate IsReservedName(name: string)
  {
    7 <= |name| && Lower(name[..7]) == "sqlite_"
  }

  /** A person table name that a quoted CREATE TABLE or RENAME TO accepts. */
  predicate IsQuotableName(name: string)
  {
    QuotesPaired(name) && !IsReservedName(name)
  }

  /** A prefix without `"` does not affect the pairing. */
  lemma {:induction false} QuotesPairedAfter(name: string, k: nat)
    requires k <= |name| && '"' !in name[..k]
    ensures QuotesPaired(name) == QuotesPaired(name[k..])
    decreases k
  {
    if k > 0 {
      assert name[0] in name[..k];
      assert name[1..][..k - 1] == name[1..k];
      assert forall x | x in name[1..k] :: x in name[..k];
      QuotesPairedAfter(name[1..], k - 1);
      assert name[1..][k - 1..] == name[k..];
    }
  }

  lemma LowerKeepsNoQuote(s: string)
    requires '"' !in s
    ensures '"' !in Lower(s)
  {
    var l := Lower(s);
    forall i | 0 <= i < |l| ensures l[i] != '"' {
      assert s[i] in s;
    }
  }

  lemma SuffixKeepsNoQuote(l: string)
    requires '"' !in l
    ensures '"' !in (l + ItemsSuffix)[..|l + ItemsSuffix|]
  {
    var t := l + ItemsSuffix;
    assert t[..|t|] == t;
    forall i | 0 <= i < |t| ensures t[i] != '"' {
      if i < |l| { assert t[i] == l[i]; } else { assert t[i] == ItemsSuffix[i - |l|]; }
    }
  }

  /** A person name without `"` gives a table name whose quoting parses. */
  lemma PlainNamesQuote(name: string)
    requires '"' !in name
    ensures QuotesPaired(PersonTableName(name))
  {
    PersonTableNameShape(name);
    var l := Lower(Remove(name, ' '));
    LowerKeepsNoQuote(Remove(name, ' '));
    SuffixKeepsNoQuote(l);
    QuotesPairedAfter(l + ItemsSuffix, |l + ItemsSuffix|);
  }

  lemma SqueezeAliUsta()
    ensures Remove("Ali \"Usta\"", ' ') == "Ali\"Usta\""
  {
    assert "Ali \"Usta\"" == "Ali" + " " + "\"Usta\"";
    SqueezeOneSpace("Ali", "\"Usta\"");
  }

  lemma LowerAliUsta()
    ensures var l := Lower("Ali\"Usta\"");
      |l| == 9 && l[0] == 'a' && l[1] == 'l' && l[2] == 'i' && l[3] == '"' && l[4] == 'u'
  {
    assert LowerChar('A') == 'a' && LowerChar('U') == 'u';
  }

  /** Three letters, then a `"` not followed by another: the quoting breaks. */
  lemma QuoteAfterThree(t: string)
    requires 5 <= |t| && t[0] != '"' && t[1] != '"' && t[2] != '"' && t[3] == '"' && t[4] != '"'
    ensures !QuotesPaired(t)
  {
    assert '"' !in t[..3] by {
      assert t[..3] == [t[0], t[1], t[2]];
    }
    QuotesPairedAfter(t, 3);
  }

  /** Any name squeezing to `l` plus the suffix, with `l` breaking the quoting early. */
  lemma SuffixedBreaks(t: string, l: string)
    requires t == l + ItemsSuffix
    requires 5 <= |l| && l[0] != '"' && l[1] != '"' && l[2] != '"' && l[3] == '"' && l[4] != '"'
    ensures !QuotesPaired(t)
  {
    assert t[..5] == l[..5];
    QuoteAfterThree(t);
  }

  /** A name with an unpaired `"` names an item table no statement can parse. */
  lemma UnpairedQuoteNamesNoTable()
    ensures !IsQuotableName(PersonTableName("Ali \"Usta\""))
  {
    PersonTableNameShape("Ali \"Usta\"");
    SqueezeAliUsta();
    LowerAliUsta();
    SuffixedBreaks(PersonTableName("Ali \"Usta\""), Lower("Ali\"Usta\""));
  }

  lemma LowerSqliteAli()
    ensures Lower("SQLite_Ali")[..7] == "sqlite_"
  {
    var l := Lower("SQLite_Ali");
    assert LowerChar('S') == 's' && LowerChar('Q') == 'q' && LowerChar('L') == 'l';
    assert l[0] == 's' && l[1] == 'q' && l[2] == 'l' && l[3] == 'i' && l[4] == 't' && l[5] == 'e' && l[6] == '_';
  }

  /** A table name made of `l` and the suffix, with `l` starting with `sqlite_`, is reserved. */
  lemma SuffixedReserved(t: string, l: string)
    requires t == l + ItemsSuffix && 7 <= |l| && l[..7] == "sqlite_"
    ensures IsReservedName(t)
  {
    assert t[..7] == l[..7];
    LowerOfLower("sqlite_");
  }

  /** A name whose table name starts with `sqlite_` gets no item table. */
  lemma ReservedNamesNoTable()
    ensures !IsQuotableName(PersonTableName("SQLite_Ali"))
  {
    PersonTableNameShape("SQLite_Ali");
    RemoveAbsent("SQLite_Ali", ' ');
    LowerSqliteAli();
    SuffixedReserved(PersonTableName("SQLite_Ali"), Lower("SQLite_Ali"));
  }

  // ---------------------------------------------------------------------------
  // Sticker codes
  // ---------------------------------------------------------------------------

  /** The three parts a sticker code is made of. */
  datatype StickerId = StickerId(year: nat, stock: string, number: nat)

  /** `create_sticker_id`: `f"{year}_{stock}_{number:06d}"`, the year taken as a parameter. */
  function StickerCode(year: nat, stock: string, number: nat): string
  {
    Decimal(year) + "_" + stock + "_" + Pad6(number)
  }

  /**
   * Reads a sticker code back: the year runs up to the first `_`, the number
   * starts after the last `_`, and the stock code is what lies between.
   */
  function ParseStickerCode(code: string): Option<StickerId>
  {
    SplitAt(code, FirstIndex(code, '_'), LastIndex(code, '_'))
  }

  /** The three parts of `code` around the separators at `i` and `j`, when both ends are numerals. */
  function SplitAt(code: string, i: nat, j: nat): Option<StickerId>
  {
    if i < j < |code| && AllDigits(code[..i]) && AllDigits(code[j + 1..]) then
      Some(StickerId(Value(code[..i]), code[i + 1..j], Value(code[j + 1..])))
    else
      None
  }

  /** The first `_` of `a + "_" + b` is the one after `a` when `a` has none. */
  lemma FirstSeparator(a: string, b: string)
    requires '_' !in a
    ensures FirstIndex(a + "_" + b, '_') == |a|
  {
    var code := a + "_" + b;
    var i := FirstIndex(code, '_');
    assert code[|a|] == '_';
  }

  /** The last `_` of `b + "_" + p` is the one before `p` when `p` has none. */
  lemma LastSeparator(b: string, p: string)
    requires '_' !in p
    ensures LastIndex(b + "_" + p, '_') == |b|
  {
    var code := b + "_" + p;
    var j := LastIndex(code, '_');
    assert code[|b|] == '_';
  }

  lemma NoSeparatorInDigits(s: string)
    requires AllDigits(s)
    ensures '_' !in s
  {
    forall k | 0 <= k < |s| ensures s[k] != '_' { assert IsDigit(s[k]); }
  }

  /** The separators of a code built from a numeral, a stock code and a numeral. */
  lemma StickerCodeSeparators(d: string, stock: string, p: string)
    requires AllDigits(d) && AllDigits(p)
    ensures var code := d + "_" + stock + "_" + p;
      FirstIndex(code, '_') == |d| && LastIndex(code, '_') == |d| + 1 + |stock|
  {
    var code := d + "_" + stock + "_" + p;
    NoSeparatorInDigits(d);
    NoSeparatorInDigits(p);
    assert code == d + "_" + (stock + "_" + p);
    FirstSeparator(d, stock + "_" + p);
    assert code == (d + "_" + stock) + "_" + p;
    LastSeparator(d + "_" + stock, p);
  }

  lemma JoinedSlices(d: string, stock: string, p: string)
    ensures var code := d + "_" + stock + "_" + p;
      var i, j := |d|, |d| + 1 + |stock|;
      code[..i] == d && code[i + 1..j] == stock && code[j + 1..] == p && j < |code|
  {
  }

  lemma ParseAt(code: string, i: nat, j: nat)
    requires FirstIndex(code, '_') == i && LastIndex(code, '_') == j && i < j < |code|
    requires AllDigits(code[..i]) && AllDigits(code[j + 1..])
    ensures ParseStickerCode(code) == Some(StickerId(Value(code[..i]), code[i + 1..j], Value(code[j + 1..])))
  {
    assert ParseStickerCode(code) == SplitAt(code, i, j);
  }

  lemma ParseJoined(code: string, d: string, stock: string, p: string)
    requires code == d + "_" + stock + "_" + p
    requires AllDigits(d) && AllDigits(p)
    ensures ParseStickerCode(code) == Some(StickerId(Value(d), stock, Value(p)))
  {
    StickerCodeSeparators(d, stock, p);
    JoinedSlices(d, stock, p);
    ParseAt(code, |d|, |d| + 1 + |stock|);
  }

  /** Every code `create_sticker_id` builds reads back to the parts it was built from. */
  lemma ParseStickerCodeRoundTrip(year: nat, stock: string, number: nat)
    ensures ParseStickerCode(StickerCode(year, stock, number)) == Some(StickerId(year, stock, number))
  {
    ParseJoined(StickerCode(year, stock, number), Decimal(year), stock, Pad6(number));
    ValueOfDecimal(year);
    Pad6Value(number);
  }

  /** Distinct (year, stock code, number) triples never produce the same sticker code. */
  lemma StickerCodeInjective(y1: nat, s1: string, n1: nat, y2: nat, s2: string, n2: nat)
    requires StickerCode(y1, s1, n1) == StickerCode(y2, s2, n2)
    ensures y1 == y2 && s1 == s2 && n1 == n2
  {
    ParseStickerCodeRoundTrip(y1, s1, n1);
    ParseStickerCodeRoundTrip(y2, s2, n2);
  }

  /** The number a code carries, 0 for a string that is not a sticker code. */
  function StickerNumber(code: string): nat
  {
    match ParseStickerCode(code)
    case Some(id) => id.number
    case None => 0
  }

  lemma StickerNumberOfCode(year: nat, stock: string, number: nat)
    ensures StickerNumber(StickerCode(year, stock, number)) == number
  {
    ParseStickerCodeRoundTrip(year, stock, number);
  }
}
