/**
  `generateIdempotencyKey` from src/App.jsx. The source replaces every `x` and
  `y` of the template `xxxxxxxx-xxxx-4xxx-yxxx-xxxxxxxxxxxx` with a hex digit
  drawn from `Math.random()`; a `y` keeps only the low two bits of its draw and
  sets bit 3 (`(r & 0x3) | 0x8`). The model takes the 31 draws as input, one
  nibble per placeholder, left to right, so nothing here is random.
*/
module IdempotencyKey {

  /** One draw, `(Math.random() * 16) | 0`. */
  type Nibble = n: int | 0 <= n < 16

  /** The 31 draws one key consumes. */
  type Draws = d: seq<Nibble> | |d| == 31 witness seq(31, i => 0)

  const Template: string := "xxxxxxxx-xxxx-4xxx-yxxx-xxxxxxxxxxxx"

  /** `v.toString(16)` for a single hex digit: lower case. */
  function Hex(v: Nibble): char {
    if v < 10 then ('0' as int + v) as char else ('a' as int + v - 10) as char
  }

  predicate IsLowerHex(c: char) {
    '0' <= c <= '9' || 'a' <= c <= 'f'
  }

  /** The nibble a lower-case hex digit stands for. */
  function HexValue(c: char): Nibble
    requires IsLowerHex(c)
  {
    if c <= '9' then c as int - '0' as int else c as int - 'a' as int + 10
  }

  /** `(r & 0x3) | 0x8` on a nibble: keeps bits 0 and 1 and sets bit 3. */
  function Variant(r: Nibble): Nibble {
    r % 4 + 8
  }

  predicate IsPlaceholder(c: char) {
    c == 'x' || c == 'y'
  }

  /** How many draws filling `t` consumes. */
  function Slots(t: string): nat {
    if t == [] then 0 else (if IsPlaceholder(t[0]) then 1 else 0) + Slots(t[1..])
  }

  /** What a key may hold where the template holds `tc`. */
  predicate Fits(tc: char, kc: char) {
    if tc == 'x' then IsLowerHex(kc)
    else if tc == 'y' then kc in "89ab"
    else kc == tc
  }

  /** `key` has the shape of template `t`, character by character. */
  predicate Matches(t: string, key: string) {
    |key| == |t| && (t == [] || (Fits(t[0], key[0]) && Matches(t[1..], key[1..])))
  }

  /** The same shape, read position by position. */
  lemma {:induction false} MatchesAt(t: string, key: string)
    ensures Matches(t, key) <==> |key| == |t| && forall i :: 0 <= i < |t| ==> Fits(t[i], key[i])
    decreases |t|
  {
    if t != [] && |key| == |t| {
      MatchesAt(t[1..], key[1..]);
      if forall i :: 0 <= i < |t| ==> Fits(t[i], key[i]) {
        forall i | 0 <= i < |t| - 1 ensures Fits(t[1..][i], key[1..][i]) {
          assert Fits(t[i + 1], key[i + 1]);
        }
      }
      if Matches(t, key) {
        forall i | 0 <= i < |t| ensures Fits(t[i], key[i]) {
          if i > 0 {
            assert Fits(t[1..][i - 1], key[1..][i - 1]);
          }
        }
      }
    }
  }

  /** The template's `replace(/[xy]/g, …)`: each placeholder takes the next draw. */
  function Fill(t: string, draws: seq<Nibble>): (key: string)
    requires |draws| == Slots(t)
    ensures |key| == |t|
  {
    if t == [] then []
    else if t[0] == 'x' then [Hex(draws[0])] + Fill(t[1..], draws[1..])
    else if t[0] == 'y' then [Hex(Variant(draws[0]))] + Fill(t[1..], draws[1..])
    else [t[0]] + Fill(t[1..], draws)
  }

  /** Whatever the draws, the filled key has the template's shape. */
  lemma {:induction false} FillMatches(t: string, draws: seq<Nibble>)
    requires |draws| == Slots(t)
    ensures Matches(t, Fill(t, draws))
    decreases |t|
  {
    if t != [] {
      var rest := if IsPlaceholder(t[0]) then draws[1..] else draws;
      FillMatches(t[1..], rest);
      assert Fill(t, draws)[1..] == Fill(t[1..], rest);
      if IsPlaceholder(t[0]) {
        HexRoundTrip(if t[0] == 'x' then draws[0] else Variant(draws[0]));
      }
    }
  }

  /** The draws after the `y` placeholders have dropped the bits the key does not keep. */
  function Canonical(t: string, draws: seq<Nibble>): (c: seq<Nibble>)
    requires |draws| == Slots(t)
    ensures |c| == |draws|
  {
    if t == [] then []
    else if t[0] == 'x' then [draws[0]] + Canonical(t[1..], draws[1..])
    else if t[0] == 'y' then [draws[0] % 4] + Canonical(t[1..], draws[1..])
    else Canonical(t[1..], draws)
  }

  /** Reads the draws back out of a key of the template's shape. */
  function Unfill(t: string, key: string): (draws: seq<Nibble>)
    requires Matches(t, key)
    ensures |draws| == Slots(t)
  {
    if t == [] then []
    else
      if t[0] == 'x' then [HexValue(key[0])] + Unfill(t[1..], key[1..])
      else if t[0] == 'y' then [HexValue(key[0]) - 8] + Unfill(t[1..], key[1..])
      else Unfill(t[1..], key[1..])
  }

  lemma HexRoundTrip(v: Nibble)
    ensures IsLowerHex(Hex(v)) && HexValue(Hex(v)) == v
  {
  }

  lemma HexValueRoundTrip(c: char)
    requires IsLowerHex(c)
    ensures Hex(HexValue(c)) == c
  {
  }

  /** A variant digit is what `Variant` makes of its value less 8. */
  lemma VariantDigit(c: char)
    requires c in "89ab"
    ensures IsLowerHex(c) && 8 <= HexValue(c) && Variant(HexValue(c) - 8) == HexValue(c)
    ensures Hex(HexValue(c)) == c
  {
    assert c == '8' || c == '9' || c == 'a' || c == 'b';
  }

  /** Every key of the template's shape is what some draws produce. */
  lemma {:induction false} FillUnfill(t: string, key: string)
    requires Matches(t, key)
    ensures Fill(t, Unfill(t, key)) == key
    decreases |t|
  {
    if t != [] {
      FillUnfill(t[1..], key[1..]);
      FillUnfillHead(t, key);
    }
  }

  /** One step of `FillUnfill`: the head character is restored and the tail is filled from the tail's draws. */
  lemma FillUnfillHead(t: string, key: string)
    requires Matches(t, key) && t != []
    requires Fits(t[0], key[0]) && Matches(t[1..], key[1..])
    requires Fill(t[1..], Unfill(t[1..], key[1..])) == key[1..]
    ensures Fill(t, Unfill(t, key)) == key
  {
    if IsPlaceholder(t[0]) {
      FillUnfillPlaceholder(t, key);
    } else {
      FillUnfillFixed(t, key);
    }
  }

  /** The head is a fixed character: it is copied, and no draw is read for it. */
  lemma FillUnfillFixed(t: string, key: string)
    requires Matches(t, key) && t != [] && !IsPlaceholder(t[0])
    requires Fits(t[0], key[0]) && Matches(t[1..], key[1..])
    requires Fill(t[1..], Unfill(t[1..], key[1..])) == key[1..]
    ensures Fill(t, Unfill(t, key)) == key
  {
    var rest := Unfill(t[1..], key[1..]);
    UnfillFixedHead(t, key);
    FillFixedHead(t, rest);
    assert key == [key[0]] + key[1..];
  }

  lemma UnfillFixedHead(t: string, key: string)
    requires Matches(t, key) && t != [] && !IsPlaceholder(t[0])
    ensures Matches(t[1..], key[1..]) && Unfill(t, key) == Unfill(t[1..], key[1..])
    ensures key[0] == t[0]
  {
  }

  lemma FillFixedHead(t: string, draws: seq<Nibble>)
    requires t != [] && !IsPlaceholder(t[0]) && |draws| == Slots(t[1..])
    ensures |draws| == Slots(t) && Fill(t, draws) == [t[0]] + Fill(t[1..], draws)
  {
  }

  /** The head is a placeholder: its digit is read back as a draw that fills in the same digit. */
  lemma FillUnfillPlaceholder(t: string, key: string)
    requires Matches(t, key) && t != [] && IsPlaceholder(t[0])
    requires Fits(t[0], key[0]) && Matches(t[1..], key[1..])
    requires Fill(t[1..], Unfill(t[1..], key[1..])) == key[1..]
    ensures Fill(t, Unfill(t, key)) == key
  {
    var rest := Unfill(t[1..], key[1..]);
    var v := PlaceholderDraw(t[0], key[0]);
    assert Unfill(t, key) == [v] + rest;
    FillCons(t, v, rest);
    assert key == [key[0]] + key[1..];
  }

  /** The draw a placeholder's digit came from; filling the placeholder with it gives the digit back. */
  function PlaceholderDraw(tc: char, kc: char): (v: Nibble)
    requires IsPlaceholder(tc) && Fits(tc, kc)
    ensures Hex(if tc == 'x' then v else Variant(v)) == kc
    ensures v == (if tc == 'x' then HexValue(kc) else HexValue(kc) - 8)
  {
    if tc == 'x' then
      HexValueRoundTrip(kc);
      HexValue(kc)
    else
      VariantDigit(kc);
      HexValue(kc) - 8
  }

  /** Filling a placeholder-headed template takes the first draw for the head. */
  lemma FillCons(t: string, v: Nibble, rest: seq<Nibble>)
    requires t != [] && IsPlaceholder(t[0]) && |rest| == Slots(t[1..])
    ensures Fill(t, [v] + rest) == [Hex(if t[0] == 'x' then v else Variant(v))] + Fill(t[1..], rest)
  {
    assert ([v] + rest)[1..] == rest;
  }

  /** Reading a filled key back gives its draws, up to the bits a `y` discards. */
  lemma {:induction false} UnfillFill(t: string, draws: seq<Nibble>)
    requires |draws| == Slots(t)
    ensures Matches(t, Fill(t, draws)) && Unfill(t, Fill(t, draws)) == Canonical(t, draws)
    decreases |t|
  {
    FillMatches(t, draws);
    if t != [] {
      var key := Fill(t, draws);
      if IsPlaceholder(t[0]) {
        UnfillFill(t[1..], draws[1..]);
        assert key[1..] == Fill(t[1..], draws[1..]);
        HexRoundTrip(if t[0] == 'x' then draws[0] else Variant(draws[0]));
      } else {
        UnfillFill(t[1..], draws);
        assert key[1..] == Fill(t[1..], draws);
      }
    }
  }

  /** Two fillings agree only if their draws agree up to the discarded bits. */
  lemma FillInjective(t: string, a: seq<Nibble>, b: seq<Nibble>)
    requires |a| == Slots(t) && |b| == Slots(t)
    ensures Fill(t, a) == Fill(t, b) <==> Canonical(t, a) == Canonical(t, b)
  {
    UnfillFill(t, a);
    UnfillFill(t, b);
    if Canonical(t, a) == Canonical(t, b) {
      FillCanonical(t, a);
      FillCanonical(t, b);
    }
  }

  /** Filling depends on the draws only through their canonical form. */
  lemma {:induction false} FillCanonical(t: string, draws: seq<Nibble>)
    requires |draws| == Slots(t)
    ensures Fill(t, draws) == Fill(t, Canonical(t, draws))
    decreases |t|
  {
    if t != [] {
      var c := Canonical(t, draws);
      if IsPlaceholder(t[0]) {
        FillCanonical(t[1..], draws[1..]);
        assert c[1..] == Canonical(t[1..], draws[1..]);
        assert CanonicalIdempotent: Canonical(t[1..], draws[1..]) == Canonical(t[1..], c[1..]) by {
          CanonicalOfCanonical(t[1..], draws[1..]);
        }
        FillCanonical(t[1..], c[1..]);
      } else {
        FillCanonical(t[1..], draws);
        CanonicalOfCanonical(t[1..], draws);
        FillCanonical(t[1..], c);
      }
    }
  }

  lemma {:induction false} CanonicalOfCanonical(t: string, draws: seq<Nibble>)
    requires |draws| == Slots(t)
    ensures Canonical(t, Canonical(t, draws)) == Canonical(t, draws)
    decreases |t|
  {
    if t != [] {
      var c := Canonical(t, draws);
      if IsPlaceholder(t[0]) {
        assert c[1..] == Canonical(t[1..], draws[1..]);
        CanonicalOfCanonical(t[1..], draws[1..]);
      } else {
        CanonicalOfCanonical(t[1..], draws);
      }
    }
  }
}

/**
  The key the client sends: the template above filled with 31 draws, and the
  version-4 shape every such key has.
*/
module IdempotencyKeyFormat {
  import opened IdempotencyKey

  predicate IsDashPos(i: int) {
    i == 8 || i == 13 || i == 18 || i == 23
  }

  /** What a version-4 key may hold at position `i`: a dash between the 8-4-4-4-12 groups,
      the version digit `4` at 14, a variant digit 8, 9, a or b at 19, and a lower-case hex digit elsewhere. */
  predicate FitsAt(i: int, c: char) {
    if IsDashPos(i) then c == '-'
    else if i == 14 then c == '4'
    else if i == 19 then c in "89ab"
    else IsLowerHex(c)
  }

  /** The canonical lower-case version-4 UUID shape. */
  predicate IsV4Key(key: string) {
    |key| == 36 && forall i :: 0 <= i < 36 ==> FitsAt(i, key[i])
  }

  function TemplateChar(i: nat): char {
    if IsDashPos(i) then '-' else if i == 14 then '4' else if i == 19 then 'y' else 'x'
  }

  lemma TemplateChars()
    ensures |Template| == 36 && forall i | 0 <= i < 36 :: Template[i] == TemplateChar(i)
  {
  }

  /** Positions at or after `k` that the template fixes rather than fills. */
  function FixedFrom(k: nat): nat {
    (if k <= 8 then 1 else 0) + (if k <= 13 then 1 else 0) + (if k <= 14 then 1 else 0)
    + (if k <= 18 then 1 else 0) + (if k <= 23 then 1 else 0)
  }

  /** Placeholders in the suffix from `k` of any string laid out like the template. */
  lemma {:induction false} SuffixSlots(t: string, k: nat)
    requires |t| == 36 && forall i | 0 <= i < 36 :: t[i] == TemplateChar(i)
    requires k <= 36
    ensures Slots(t[k..]) == 36 - k - FixedFrom(k)
    decreases 36 - k
  {
    if k < 36 {
      SuffixSlots(t, k + 1);
      SlotsFrom(t, k);
      assert t[k] == TemplateChar(k);
    }
  }

  /** Counting the placeholders of a suffix one character at a time. */
  lemma SlotsFrom(t: string, k: nat)
    requires k < |t|
    ensures Slots(t[k..]) == (if IsPlaceholder(t[k]) then 1 else 0) + Slots(t[k + 1..])
  {
    assert t[k..][1..] == t[k + 1..];
  }

  /** The template has 31 placeholders, so one key consumes exactly one `Draws`. */
  lemma TemplateSlots()
    ensures Slots(Template) == 31
  {
    TemplateChars();
    SuffixSlots(Template, 0);
    assert Template[0..] == Template;
  }

  /** A key has the template's shape exactly when it has the version-4 shape. */
  lemma ShapeIsV4(key: string)
    ensures Matches(Template, key) <==> IsV4Key(key)
  {
    MatchesAt(Template, key);
    TemplateChars();
    if |key| == 36 {
      forall i | 0 <= i < 36 ensures Fits(Template[i], key[i]) <==> FitsAt(i, key[i]) {
        assert Template[i] == TemplateChar(i);
      }
    }
  }

  /** `generateIdempotencyKey()` for the given draws. */
  function Generate(draws: Draws): (key: string)
    ensures IsV4Key(key)
  {
    TemplateSlots();
    FillMatches(Template, draws);
    ShapeIsV4(Fill(Template, draws));
    Fill(Template, draws)
  }

  /** The draws a version-4 key was generated from, up to the discarded variant bits: every
      version-4 key is generated by some draws, so the format is no wider than the generator. */
  function DrawsOf(key: string): (draws: Draws)
    requires IsV4Key(key)
    ensures Generate(draws) == key
  {
    ShapeIsV4(key);
    TemplateSlots();
    FillUnfill(Template, key);
    Unfill(Template, key)
  }

  /** The draws with the variant draw cut down to the two bits the key keeps. */
  function KeptBits(draws: Draws): seq<Nibble> {
    TemplateSlots();
    Canonical(Template, draws)
  }

  /** Two attempts send the same key exactly when their draws agree everywhere
      except in the two bits the variant digit throws away. */
  lemma GenerateInjective(a: Draws, b: Draws)
    ensures Generate(a) == Generate(b) <==> KeptBits(a) == KeptBits(b)
  {
    TemplateSlots();
    FillInjective(Template, a, b);
  }
}
