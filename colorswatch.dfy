/**
 * The colour swatch next to each spool: a hex colour is shown as typed (trimmed);
 * otherwise the name is looked up in a small table of filament colours, first as a
 * whole and then word by word, and a short unknown name is handed on as a CSS colour.
 * None stands for the striped "no colour" background.
 */
module ColorSwatch {
  import opened Wrappers
  import opened Text

  /** `normalizeColorName`: trimmed and lower-cased. */
  function Normalize(s: string): string {
    Lower(Trim(s))
  }

  /** Normalizing twice is normalizing once. */
  lemma NormalizeIdempotent(s: string)
    ensures Normalize(Normalize(s)) == Normalize(s)
  {
    var t := Trim(s);
    TrimLowerCommute(t);
    TrimIdempotent(s);
    LowerIdempotent(t);
  }

  /** A normalized name has no white space at either end and no upper-case ASCII letter. */
  lemma NormalizeFacts(s: string)
    ensures var n := Normalize(s);
      && (n == [] || (!IsSpace(n[0]) && !IsSpace(n[|n| - 1])))
      && |n| == |Trim(s)|
      && forall i :: 0 <= i < |n| ==> !('A' <= n[i] <= 'Z')
  {
    var t := Trim(s);
    TrimFacts(s);
    LowerFacts(t);
    if t != [] {
      LowerKeepsSpace(t[0]);
      LowerKeepsSpace(t[|t| - 1]);
    }
  }

  predicate IsHexDigit(c: char) {
    ('0' <= c <= '9') || ('a' <= c <= 'f') || ('A' <= c <= 'F')
  }

  /** `#` followed by exactly 3, 6 or 8 hex digits and nothing else. */
  predicate HexForm(v: string) {
    && (|v| == 4 || |v| == 7 || |v| == 9)
    && v[0] == '#'
    && forall i :: 1 <= i < |v| ==> IsHexDigit(v[i])
  }

  /** `isHexColor`: the trimmed text has the hex form. */
  predicate IsHexColor(s: string) {
    HexForm(Trim(s))
  }

  /** Surrounding white space never matters to the hex test. */
  lemma IsHexColorOfTrimmed(s: string)
    ensures IsHexColor(Trim(s)) <==> IsHexColor(s)
  {
    TrimIdempotent(s);
  }

  /** The hex test ignores the case of the digits. */
  lemma IsHexColorIgnoresCase(s: string)
    ensures IsHexColor(Lower(s)) <==> IsHexColor(s)
  {
    var t := Trim(s);
    TrimLowerCommute(s);
    LowerFacts(t);
    var l := Lower(t);
    if HexForm(t) {
      forall i | 1 <= i < |l| ensures IsHexDigit(l[i]) {
        assert l[i] == LowerChar(t[i]);
      }
    }
    if HexForm(l) {
      forall i | 1 <= i < |t| ensures IsHexDigit(t[i]) {
        assert l[i] == LowerChar(t[i]);
      }
    }
  }

  /** The table of common filament colour names. */
  const Table: map<string, string> := map[
    "black" := "#111111",
    "white" := "#f5f5f5",
    "gray" := "#8a8a8a",
    "grey" := "#8a8a8a",
    "silver" := "#b9c0c8",
    "red" := "#d11f1f",
    "blue" := "#1f5bd1",
    "green" := "#1f9b4a",
    "yellow" := "#f2d21b",
    "orange" := "#f08a24",
    "purple" := "#7a3bd1",
    "violet" := "#7a3bd1",
    "pink" := "#e84aa8",
    "brown" := "#7a4a2a",
    "gold" := "#d4af37",
    "bronze" := "#b08d57",
    "transparent" := "rgba(255,255,255,0.2)",
    "clear" := "rgba(255,255,255,0.2)"
  ]

  /** The characters the name is split on: white space, `-`, `_` and `/`. */
  predicate IsSep(c: char) {
    IsSpace(c) || c == '-' || c == '_' || c == '/'
  }

  predicate LowerLetters(s: string) {
    s != [] && forall i :: 0 <= i < |s| ==> 'a' <= s[i] <= 'z'
  }

  predicate NoSep(s: string) {
    forall i :: 0 <= i < |s| ==> !IsSep(s[i])
  }

  /** Every key of the table is a non-empty run of lower-case letters. */
  lemma TableKeyIsLower(k: string)
    requires k in Table
    ensures LowerLetters(k)
  {
    if k == "black" {} else if k == "white" {} else if k == "gray" {} else if k == "grey" {}
    else if k == "silver" {} else if k == "red" {} else if k == "blue" {} else if k == "green" {}
    else if k == "yellow" {} else if k == "orange" {} else if k == "purple" {} else if k == "violet" {}
    else if k == "pink" {} else if k == "brown" {} else if k == "gold" {} else if k == "bronze" {}
    else if k == "transparent" {} else {}
  }

  /** No key of the table is empty or holds a separator, so a name with one never hits the table whole. */
  lemma TableKeysHaveNoSep()
    ensures forall k :: k in Table ==> k != [] && NoSep(k)
  {
    forall k | k in Table ensures k != [] && NoSep(k) {
      TableKeyIsLower(k);
    }
  }

  /** The tokens of `s`, given the token `cur` collected so far. */
  function TokensFrom(s: string, cur: string): seq<string>
    decreases |s|
  {
    if s == [] then (if cur == [] then [] else [cur])
    else if IsSep(s[0]) then (if cur == [] then [] else [cur]) + TokensFrom(s[1..], [])
    else TokensFrom(s[1..], cur + [s[0]])
  }

  /** `n.split(/[\s\-_/]+/).filter(Boolean)`: the maximal runs of characters that are not separators. */
  function Tokens(s: string): seq<string> {
    TokensFrom(s, [])
  }

  /** Every token is non-empty and holds no separator. */
  lemma {:induction false} TokensFromWellFormed(s: string, cur: string)
    requires NoSep(cur)
    ensures forall t :: t in TokensFrom(s, cur) ==> t != [] && NoSep(t)
  {
    if s != [] {
      if IsSep(s[0]) {
        TokensFromWellFormed(s[1..], []);
      } else {
        TokensFromWellFormed(s[1..], cur + [s[0]]);
      }
    }
  }

  lemma TokensWellFormed(s: string)
    ensures forall t :: t in Tokens(s) ==> t != [] && NoSep(t)
  {
    TokensFromWellFormed(s, []);
  }

  lemma {:induction false} TokensFromSplit(a: string, c: char, b: string, cur: string)
    requires IsSep(c)
    ensures TokensFrom(a + [c] + b, cur) == TokensFrom(a, cur) + TokensFrom(b, [])
    decreases |a|
  {
    if a == [] {
      assert a + [c] + b == [c] + b;
      assert ([c] + b)[1..] == b;
    } else {
      assert (a + [c] + b)[0] == a[0];
      assert (a + [c] + b)[1..] == a[1..] + [c] + b;
      if IsSep(a[0]) {
        TokensFromSplit(a[1..], c, b, []);
      } else {
        TokensFromSplit(a[1..], c, b, cur + [a[0]]);
      }
    }
  }

  /** A separator splits the tokens in two. */
  lemma TokensSplit(a: string, c: char, b: string)
    requires IsSep(c)
    ensures Tokens(a + [c] + b) == Tokens(a) + Tokens(b)
  {
    TokensFromSplit(a, c, b, []);
  }

  lemma {:induction false} TokensFromWord(s: string, cur: string)
    requires NoSep(s)
    ensures TokensFrom(s, cur) == if cur + s == [] then [] else [cur + s]
    decreases |s|
  {
    if s != [] {
      assert cur + s == (cur + [s[0]]) + s[1..];
      TokensFromWord(s[1..], cur + [s[0]]);
    } else {
      assert cur + s == cur;
    }
  }

  /** Text without separators is one token, or none when it is empty. */
  lemma TokensOfWord(s: string)
    requires NoSep(s)
    ensures Tokens(s) == if s == [] then [] else [s]
  {
    TokensFromWord(s, []);
    assert [] + s == s;
  }

  /** The table value of the first token that has one. */
  function FirstHit(tokens: seq<string>): Option<string> {
    if tokens == [] then None
    else if tokens[0] in Table then Some(Table[tokens[0]])
    else FirstHit(tokens[1..])
  }

  /** The first hit is the value of the earliest token in the table, and there is none when no token is. */
  lemma {:induction false} FirstHitFacts(tokens: seq<string>)
    ensures FirstHit(tokens).None? <==> forall i :: 0 <= i < |tokens| ==> tokens[i] !in Table
    ensures FirstHit(tokens).Some? ==>
              exists i :: 0 <= i < |tokens| && tokens[i] in Table && FirstHit(tokens).value == Table[tokens[i]]
                          && forall j :: 0 <= j < i ==> tokens[j] !in Table
  {
    if tokens != [] && tokens[0] !in Table {
      var rest := tokens[1..];
      FirstHitFacts(rest);
      if FirstHit(rest).Some? {
        var i :| 0 <= i < |rest| && rest[i] in Table && FirstHit(rest).value == Table[rest[i]]
                 && forall j :: 0 <= j < i ==> rest[j] !in Table;
        assert tokens[i + 1] == rest[i];
        forall j | 0 <= j < i + 1 ensures tokens[j] !in Table {
          if j > 0 {
            assert tokens[j] == rest[j - 1];
          }
        }
      }
      forall i | 1 <= i < |tokens| ensures tokens[i] == rest[i - 1] {
      }
    }
  }

  /**
   * `colorFromName`: the table value of the whole normalized name, else of its first token
   * found in the table, else the name itself when its normalized form is non-empty and at
   * most 20 characters long, else None.
   */
  function ColorFromName(name: string): Option<string> {
    var n := Normalize(name);
    if n in Table then Some(Table[n])
    else
      var hit := FirstHit(Tokens(n));
      if hit.Some? then hit
      else if n != [] && |n| <= 20 then Some(name)
      else None
  }

  /** The loop of `colorFromName`: the table is tried whole, then token by token, returning at the first hit. */
  method ScanColorName(name: string) returns (r: Option<string>)
    ensures r == ColorFromName(name)
  {
    var n := Normalize(name);
    if n in Table {
      return Some(Table[n]);
    }
    var tokens := Tokens(n);
    for i := 0 to |tokens|
      invariant FirstHit(tokens[i..]) == FirstHit(tokens)
    {
      assert tokens[i..][1..] == tokens[i + 1..];
      if tokens[i] in Table {
        return Some(Table[tokens[i]]);
      }
    }
    assert tokens[|tokens|..] == [];
    if n != [] && |n| <= 20 {
      return Some(name);
    }
    return None;
  }

  /** A whole-name hit wins before any token is looked at. */
  lemma ExactHitWins(name: string)
    requires Normalize(name) in Table
    ensures ColorFromName(name) == Some(Table[Normalize(name)])
  {
  }

  /** Without a whole-name hit the earliest token in the table decides. */
  lemma TokenHitDecides(name: string, i: nat)
    requires Normalize(name) !in Table
    requires i < |Tokens(Normalize(name))| && Tokens(Normalize(name))[i] in Table
    requires forall j :: 0 <= j < i ==> Tokens(Normalize(name))[j] !in Table
    ensures ColorFromName(name) == Some(Table[Tokens(Normalize(name))[i]])
  {
    var ts := Tokens(Normalize(name));
    FirstHitFacts(ts);
    var k :| 0 <= k < |ts| && ts[k] in Table && FirstHit(ts).value == Table[ts[k]]
             && forall j :: 0 <= j < k ==> ts[j] !in Table;
    assert k == i;
  }

  /** With no hit at all the name itself comes back exactly when its normalized form is non-empty and short. */
  lemma NoHitFallsBack(name: string)
    requires Normalize(name) !in Table
    requires forall t :: t in Tokens(Normalize(name)) ==> t !in Table
    ensures ColorFromName(name) == if Normalize(name) != [] && |Normalize(name)| <= 20 then Some(name) else None
  {
    FirstHitFacts(Tokens(Normalize(name)));
  }

  /** A variant such as "matte black" or "dark red" gets the colour of its last word when the first is not a colour. */
  lemma VariantFindsBaseColor(name: string, a: string, c: string)
    requires Normalize(name) == a + " " + c
    requires NoSep(a) && NoSep(c) && a !in Table && c in Table
    ensures ColorFromName(name) == Some(Table[c])
  {
    var n := Normalize(name);
    assert n[|a|] == ' ';
    TableKeysHaveNoSep();
    assert n !in Table;
    assert n == a + [' '] + c;
    TokensSplit(a, ' ', c);
    TokensOfWord(a);
    TokensOfWord(c);
    var ts := Tokens(n);
    if a != [] {
      assert ts == [a, c];
      assert ts[1..] == [c];
      assert FirstHit(ts[1..]) == Some(Table[c]);
    } else {
      assert ts == [c];
    }
    assert FirstHit(ts) == Some(Table[c]);
  }

  /** Whatever comes back is a table colour or the name itself. */
  lemma ColorFromNameResult(name: string)
    ensures var r := ColorFromName(name);
      r.Some? ==> r.value in Table.Values || (r.value == name && 0 < |Trim(name)| <= 20)
  {
    var n := Normalize(name);
    NormalizeFacts(name);
    var ts := Tokens(n);
    FirstHitFacts(ts);
    if n !in Table && FirstHit(ts).Some? {
      var i :| 0 <= i < |ts| && ts[i] in Table && FirstHit(ts).value == Table[ts[i]]
               && forall j :: 0 <= j < i ==> ts[j] !in Table;
      assert Table[ts[i]] in Table.Values;
    }
  }

  /** The swatch: the trimmed colour when it is hex, otherwise the colour found from its name. */
  function Swatch(color: string): Option<string> {
    var trimmed := Trim(color);
    if IsHexColor(trimmed) then Some(trimmed) else ColorFromName(trimmed)
  }

  /** A hex colour is shown trimmed, without going through the table. */
  lemma SwatchOfHex(color: string)
    requires IsHexColor(color)
    ensures Swatch(color) == Some(Trim(color))
  {
    IsHexColorOfTrimmed(color);
  }

  /** A blank colour gets the "no colour" background. */
  lemma SwatchOfBlank(color: string)
    requires Trim(color) == []
    ensures Swatch(color) == None
  {
    TrimIdempotent(color);
    assert Normalize(Trim(color)) == [];
    assert TokensFrom([], []) == [];
  }

  /** A colour named in the table (in any case, with any surrounding space) gets its table value. */
  lemma SwatchOfTableName(color: string)
    requires !IsHexColor(color) && Normalize(color) in Table
    ensures Swatch(color) == Some(Table[Normalize(color)])
  {
    IsHexColorOfTrimmed(color);
    TrimIdempotent(color);
  }

  /** What the swatch shows is a table colour, or the trimmed colour itself. */
  lemma SwatchResult(color: string)
    ensures var r := Swatch(color);
      r.Some? ==> (|| r.value in Table.Values
                   || (r.value == Trim(color) && 0 < |Trim(color)| <= 20)
                   || (r.value == Trim(color) && IsHexColor(color)))
  {
    IsHexColorOfTrimmed(color);
    TrimIdempotent(color);
    ColorFromNameResult(Trim(color));
  }
}
