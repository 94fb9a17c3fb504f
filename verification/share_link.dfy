/** The share link (App.tsx): the selection travels in the `selected` query
    parameter as the ids joined with commas, in selection order. Reading the
    parameter is lenient: bad tokens are dropped, never fatal. Writing only
    happens when the value would change. The address is represented by the
    value of that one parameter, `None` when it is absent. */
module ShareLink {
  import opened Seqs
  import opened Wrappers
  import opened Strings
  import opened Numbers
  import opened Selection

  /** Separator between ids in the parameter value. */
  const SEP: char := ','

  /** `parseInt(token.trim(), 10)`; `None` stands for NaN. */
  function TokenValue(token: string): Option<int> {
    ParseInt(Trim(token))
  }

  /** `.map(id => parseInt(id.trim(), 10)).filter(id => !isNaN(id))`: the
      ids the tokens parse to, in token order; tokens that parse to NaN are
      skipped. */
  function ParseTokens(tokens: seq<string>): (r: seq<int>)
    ensures |r| <= |tokens|
  {
    FilterMap(TokenValue, tokens)
  }

  /** The parsed ids are exactly the values some token reads as. */
  lemma ParseTokensMembers(tokens: seq<string>)
    ensures forall x :: x in ParseTokens(tokens) <==> Produces(TokenValue, tokens, x)
  {
    FilterMapMembers(TokenValue, tokens);
  }

  /** The decoded selection of a present, non-empty parameter value: split on
      commas, parse every token, and keep the first occurrence of each id. */
  function Decode(value: string): (r: seq<int>)
    ensures NoDup(r)
    ensures forall x :: x in r <==> x in ParseTokens(Split(value, SEP))
  {
    Dedupe(ParseTokens(Split(value, SEP)))
  }

  /** An id is decoded exactly when some comma-separated token of the value
      reads as it. */
  lemma DecodeMembers(value: string)
    ensures forall x :: x in Decode(value) <==> Produces(TokenValue, Split(value, SEP), x)
  {
    ParseTokensMembers(Split(value, SEP));
  }

  /** A token that reads as NaN drops out without disturbing the order of
      the others. */
  lemma ParseTokensSkips(a: seq<string>, t: string, b: seq<string>)
    requires TokenValue(t).None?
    ensures ParseTokens(a + [t] + b) == ParseTokens(a) + ParseTokens(b)
  {
    FilterMapSkips(TokenValue, a, t, b);
  }

  /** The decoded ids come in the order of the first token each is read
      from, which is the order `new Set` keeps. */
  lemma DecodeOrder(value: string)
    ensures forall i, j :: 0 <= i < |Decode(value)| && 0 <= j < |Decode(value)| ==>
      (i < j <==>
        FirstProducer(TokenValue, Split(value, SEP), Decode(value)[i]) < FirstProducer(TokenValue, Split(value, SEP), Decode(value)[j]))
  {
    DedupeFilterMapOrder(TokenValue, Split(value, SEP));
  }

  /** The mount-time hydration: a present, non-empty parameter replaces the
      selection wholesale; an absent or empty one leaves it as it is. */
  function Hydrate(current: seq<int>, param: Option<string>): (r: seq<int>)
    ensures param == None || param == Some("") ==> r == current
    ensures param.Some? && param.value != "" ==> NoDup(r)
    ensures param.Some? && param.value != "" ==> forall x :: x in r <==> x in ParseTokens(Split(param.value, SEP))
  {
    if param.Some? && param.value != "" then Decode(param.value) else current
  }

  /** The numerals of the ids, in selection order. */
  function Numerals(ids: seq<int>): (r: seq<string>)
    ensures |r| == |ids|
    ensures forall k :: 0 <= k < |r| ==> r[k] == IntToString(ids[k])
  {
    seq(|ids|, k requires 0 <= k < |ids| => IntToString(ids[k]))
  }

  /** The parameter value the selection is written as: absent for an empty
      selection, otherwise the ids joined by commas in selection order. */
  function Encode(sel: seq<int>): (r: Option<string>)
    ensures r.None? <==> |sel| == 0
    ensures r.Some? ==> |r.value| > 0 && Split(r.value, SEP) == Numerals(sel)
  {
    if |sel| == 0 then None
    else
      var parts := Numerals(sel);
      SplitJoin(parts, SEP);
      var v := Join(parts, SEP);
      assert |v| > 0 by {
        JoinKeepsFirst(parts, SEP);
      }
      Some(v)
  }

  lemma {:induction false} JoinKeepsFirst(parts: seq<string>, sep: char)
    requires |parts| > 0
    ensures |Join(parts, sep)| >= |parts[0]|
  {
  }

  /** Every numeral parses back to the id it was written from. */
  lemma ParseNumerals(ids: seq<int>)
    ensures ParseTokens(Numerals(ids)) == ids
  {
    var ns := Numerals(ids);
    forall k | 0 <= k < |ns|
      ensures TokenValue(ns[k]) == Some(ids[k])
    {
      NumeralToken(ids[k]);
    }
    FilterMapTotal(TokenValue, ns, ids);
  }

  /** The numeral of an id is a token that reads back as that id. */
  lemma NumeralToken(i: int)
    ensures TokenValue(IntToString(i)) == Some(i)
  {
    TrimVisible(IntToString(i));
    ParseIntRoundTrip(i);
  }

  /** Round trip: reading back the written parameter of any duplicate-free
      selection gives exactly that selection, in the same order. */
  lemma RoundTrip(sel: seq<int>)
    requires NoDup(sel)
    ensures |sel| > 0 ==> Decode(Encode(sel).value) == sel
    ensures Hydrate([], Encode(sel)) == sel
  {
    if |sel| > 0 {
      DecodeEncoded(sel);
    }
  }

  lemma DecodeEncoded(sel: seq<int>)
    requires |sel| > 0 && NoDup(sel)
    ensures Decode(Encode(sel).value) == sel
  {
    var v := Encode(sel).value;
    ParseNumerals(sel);
    assert ParseTokens(Split(v, SEP)) == sel;
  }

  /** Different selections are written differently: the encoding loses no
      information about the selection, order included. */
  lemma EncodeInjective(a: seq<int>, b: seq<int>)
    requires NoDup(a) && NoDup(b)
    requires Encode(a) == Encode(b)
    ensures a == b
  {
    RoundTrip(a);
    RoundTrip(b);
  }

  /** The outcome of the write-back effect: whether a history entry was
      pushed, and the parameter value the location carries afterwards. */
  datatype LinkUpdate = LinkUpdate(pushed: bool, param: Option<string>)

  /** The write-back effect: the location is rewritten exactly when the newly
      encoded parameter differs from the one it already carries. */
  function WriteBack(current: Option<string>, sel: seq<int>): (r: LinkUpdate)
    ensures r.pushed <==> current != Encode(sel)
    ensures !r.pushed ==> r.param == current
    ensures r.param.None? <==> |sel| == 0
  {
    var next := Encode(sel);
    if current != next then LinkUpdate(true, next) else LinkUpdate(false, current)
  }

  /** After a write-back the link decodes to the selection, and writing back
      again for the same selection pushes nothing. */
  lemma WriteBackSettles(current: Option<string>, sel: seq<int>)
    requires NoDup(sel)
    ensures Hydrate([], WriteBack(current, sel).param) == sel
    ensures !WriteBack(WriteBack(current, sel).param, sel).pushed
  {
    RoundTrip(sel);
  }

  /** A token that starts and ends with a visible character and opens with
      neither a sign nor a digit. */
  predicate NoNumber(token: string) {
    && |token| > 0 && !IsWhitespace(token[0]) && !IsWhitespace(token[|token| - 1])
    && !IsDigit(token[0]) && token[0] != '-' && token[0] != '+'
  }

  /** Such a token reads as NaN. */
  lemma NonNumericToken(token: string)
    requires NoNumber(token)
    ensures TokenValue(token) == None
  {
    TrimVisible(token);
    NoSignNoNumber(token);
  }

  lemma NoSignNoNumber(token: string)
    requires |token| > 0 && !IsWhitespace(token[0])
    requires !IsDigit(token[0]) && token[0] != '-' && token[0] != '+'
    ensures ParseInt(token) == None
  {
    assert TrimStart(token) == token;
    assert Unsigned(token) == token;
  }

  /** The empty token a trailing comma leaves reads as NaN. */
  lemma EmptyToken()
    ensures TokenValue("") == None
  {
  }

  /** The tokens of a link that carries two ids, a junk token between them
      and a trailing comma. */
  function GarbledTokens(a: int, junk: string, b: int): seq<string> {
    [IntToString(a), junk, IntToString(b), ""]
  }

  lemma GarbledSplit(a: int, junk: string, b: int)
    requires SEP !in junk
    ensures Split(IntToString(a) + [SEP] + junk + [SEP] + IntToString(b) + [SEP], SEP) == GarbledTokens(a, junk, b)
  {
    SplitThreeTerminated(IntToString(a), junk, IntToString(b));
  }

  /** Three separator-free pieces, each followed by the separator, split
      into the pieces and a final empty one. */
  lemma SplitThreeTerminated(x: string, y: string, z: string)
    requires SEP !in x && SEP !in y && SEP !in z
    ensures Split(x + [SEP] + y + [SEP] + z + [SEP], SEP) == [x, y, z, ""]
  {
    var zt := z + [SEP] + "";
    var yt := y + [SEP] + zt;
    assert x + [SEP] + y + [SEP] + z + [SEP] == x + [SEP] + yt;
    SplitPiece(z, "", SEP);
    SplitPiece(y, zt, SEP);
    SplitPiece(x, yt, SEP);
  }

  lemma FilterMapFour<A, B>(f: A -> Option<B>, w: A, x: A, y: A, z: A, p: B, q: B)
    requires f(w) == Some(p) && f(x) == None && f(y) == Some(q) && f(z) == None
    ensures FilterMap(f, [w, x, y, z]) == [p, q]
  {
    var s3, s2, s1, s0 := [z], [y, z], [x, y, z], [w, x, y, z];
    assert s3[1..] == [] && s2[1..] == s3 && s1[1..] == s2 && s0[1..] == s1;
    assert FilterMap(f, s3) == [];
    assert FilterMap(f, s2) == [q];
    assert FilterMap(f, s1) == [q];
  }

  lemma GarbledParse(a: int, junk: string, b: int)
    requires TokenValue(junk) == None
    ensures ParseTokens(GarbledTokens(a, junk, b)) == [a, b]
  {
    NumeralToken(a);
    NumeralToken(b);
    EmptyToken();
    FilterMapFour(TokenValue, IntToString(a), junk, IntToString(b), "", a, b);
  }

  /** Garbage tolerance: a token without digits between two ids and the
      empty token after a trailing comma are dropped, and the two ids are
      read in order. */
  lemma DecodeDropsGarbage(a: int, junk: string, b: int)
    requires a != b && SEP !in junk && TokenValue(junk) == None
    ensures Decode(IntToString(a) + [SEP] + junk + [SEP] + IntToString(b) + [SEP]) == [a, b]
  {
    GarbledSplit(a, junk, b);
    GarbledParse(a, junk, b);
    DistinctPair(a, b);
  }

  lemma DistinctPair(a: int, b: int)
    requires a != b
    ensures Dedupe([a, b]) == [a, b]
  {
    assert NoDup([a, b]);
  }

  /** The concrete case `"3,foo,7,"`, which reads as the ids 3 and 7. */
  lemma GarbageExampleText(three: int, junk: string, seven: int)
    requires three == 3 && junk == "foo" && seven == 7
    ensures IntToString(three) + [SEP] + junk + [SEP] + IntToString(seven) + [SEP] == "3,foo,7,"
  {
    assert IntToString(three) == "3";
    assert IntToString(seven) == "7";
  }

  lemma GarbageExampleJunk(junk: string)
    requires junk == "foo"
    ensures SEP !in junk && NoNumber(junk)
  {
    assert junk[0] == 'f' && junk[|junk| - 1] == 'o';
  }

  /** The link value `"3,foo,7,"` reads as the ids 3 and 7. */
  lemma DecodeDropsGarbageExample(value: string, three: int, junk: string, seven: int)
    requires value == "3,foo,7," && three == 3 && junk == "foo" && seven == 7
    ensures Decode(value) == [three, seven]
  {
    GarbageExampleText(three, junk, seven);
    GarbageExampleJunk(junk);
    NonNumericToken(junk);
    DecodeDropsGarbage(three, junk, seven);
  }

  /** An id repeated after a junk token is read once, at its first place:
      the ids keep the order of their first tokens. */
  lemma DecodeRepeatAfterGarbage(a: int, junk: string, b: int)
    requires a != b && SEP !in junk && TokenValue(junk) == None
    ensures Decode(IntToString(a) + [SEP] + junk + [SEP] + IntToString(b) + [SEP] + IntToString(a)) == [a, b]
  {
    var sa, sb := IntToString(a), IntToString(b);
    RepeatSplit(sa, junk, sb);
    RepeatParse(a, junk, b);
    RepeatDedupe(a, b);
  }

  lemma RepeatSplit(sa: string, junk: string, sb: string)
    requires SEP !in sa && SEP !in junk && SEP !in sb
    ensures Split(sa + [SEP] + junk + [SEP] + sb + [SEP] + sa, SEP) == [sa, junk, sb, sa]
  {
    var bt := sb + [SEP] + sa;
    var jt := junk + [SEP] + bt;
    RepeatText(sa, junk, sb);
    SplitJoin([sa], SEP);
    SplitPiece(sb, sa, SEP);
    assert Split(bt, SEP) == [sb, sa];
    SplitPiece(junk, bt, SEP);
    assert Split(jt, SEP) == [junk, sb, sa];
    SplitPiece(sa, jt, SEP);
  }

  lemma RepeatText(sa: string, junk: string, sb: string)
    ensures sa + [SEP] + junk + [SEP] + sb + [SEP] + sa == sa + [SEP] + (junk + [SEP] + (sb + [SEP] + sa))
  {
  }

  lemma RepeatParse(a: int, junk: string, b: int)
    requires TokenValue(junk) == None
    ensures ParseTokens([IntToString(a), junk, IntToString(b), IntToString(a)]) == [a, b, a]
  {
    NumeralToken(a);
    NumeralToken(b);
    FilterMapRepeat(TokenValue, IntToString(a), junk, IntToString(b), a, b);
  }

  lemma FilterMapRepeat<A, B>(f: A -> Option<B>, w: A, x: A, y: A, p: B, q: B)
    requires f(w) == Some(p) && f(x) == None && f(y) == Some(q)
    ensures FilterMap(f, [w, x, y, w]) == [p, q, p]
  {
    var s3, s2, s1, s0 := [w], [y, w], [x, y, w], [w, x, y, w];
    assert s3[1..] == [] && s2[1..] == s3 && s1[1..] == s2 && s0[1..] == s1;
    assert FilterMap(f, s3) == [p];
    assert FilterMap(f, s2) == [q, p];
    assert FilterMap(f, s1) == [q, p];
  }

  lemma RepeatDedupe(a: int, b: int)
    requires a != b
    ensures Dedupe([a, b, a]) == [a, b]
  {
    assert [a, b, a][..2] == [a, b];
    DistinctPair(a, b);
  }

  /** The link value `"7,foo,3,7"` reads as the ids 7 and 3. */
  lemma DecodeRepeatExample(value: string, seven: int, junk: string, three: int)
    requires value == "7,foo,3,7" && seven == 7 && junk == "foo" && three == 3
    ensures Decode(value) == [seven, three]
  {
    assert IntToString(seven) == "7" && IntToString(three) == "3";
    assert IntToString(seven) + [SEP] + junk + [SEP] + IntToString(three) + [SEP] + IntToString(seven) == value;
    GarbageExampleJunk(junk);
    NonNumericToken(junk);
    DecodeRepeatAfterGarbage(seven, junk, three);
  }

  /** An absent or empty parameter leaves the initial empty selection empty,
      and the empty selection is written as no parameter at all. */
  lemma EmptyCases()
    ensures Hydrate([], None) == [] && Hydrate([], Some("")) == []
    ensures Encode([]) == None
  {
  }
}
