/** Reading a whole value, as a function of the bytes.  It makes the same decisions as the parser, and returns the
    tree it found; the lemmas say that it reads exactly the grammar's texts. */
module JsonReading {
  import opened Options
  import opened JsonGrammar
  import opened JsonStrings
  import opened JsonLiterals

  ghost function ReadValue(s: seq<Byte>, i: nat, depth: nat, count: nat): (r: Option<(Text, nat)>)
    requires i <= |s|
    ensures r.Some? ==> i < r.value.1 <= |s|
    decreases |s| - i, 0
  {
    var a := Skip(s, i);
    if depth > MAX_DEPTH || count >= TOKEN_COUNT || a == |s| then None
    else if s[a] == Open(true) || s[a] == Open(false) then
      var braced := s[a] == Open(true);
      var b := Skip(s, a + 1);
      if At(s, b) == Close(braced) then Some((Group(s[i..a], braced, s[a + 1..b], Nil), b + 1))
      else
        match ReadItems(s, b, braced, depth + 1, count + 1, [])
        case None => None
        case Some((items, end)) => Some((Group(s[i..a], braced, s[a + 1..b], items), end))
    else if s[a] == QUOTE then
      match UnitsAt(s, a + 1)
      case None => None
      case Some((units, end)) => Some((Str(s[i..a], units), end))
    else
      match LiteralEnd(s, a)
      case None => None
      case Some(end) => Some((Prim(s[i..a], LiteralAt(s, a)), end))
  }

  /** Reads at least one item and the closing bracket; `seen` holds the names of the members before. */
  ghost function ReadItems(s: seq<Byte>, i: nat, braced: bool, depth: nat, count: nat, seen: seq<seq<int>>)
    : (r: Option<(Items, nat)>)
    requires i <= |s|
    ensures r.Some? ==> i < r.value.1 <= |s| && !r.value.0.Nil?
    decreases |s| - i, 1
  {
    match ReadValue(s, i, depth, count)
    case None => None
    case Some((v, e)) =>
      if !braced then
        match ReadAfter(s, e, braced, depth, count + Count(v), seen)
        case None => None
        case Some((post, rest, end)) => Some((Elem(v, post, rest), end))
      else if !v.Str? || !AllInString(v.units) || Codes(v.units) in seen || At(s, Skip(s, e)) != COLON then None
      else
        match ReadValue(s, Skip(s, e) + 1, depth, count + Count(v))
        case None => None
        case Some((w, f)) =>
          match ReadAfter(s, f, braced, depth, count + Count(v) + Count(w), seen + [Codes(v.units)])
          case None => None
          case Some((post, rest, end)) => Some((Member(v, s[e..Skip(s, e)], w, post, rest), end))
  }

  /** What follows an item: white space, then the closing bracket or a comma and more items. */
  ghost function ReadAfter(s: seq<Byte>, e: nat, braced: bool, depth: nat, count: nat, seen: seq<seq<int>>)
    : (r: Option<(seq<Byte>, Items, nat)>)
    requires e <= |s|
    ensures r.Some? ==> e < r.value.2 <= |s|
    decreases |s| - e, 2
  {
    var c := Skip(s, e);
    if At(s, c) == Close(braced) then Some((s[e..c], Nil, c + 1))
    else if At(s, c) != COMMA then None
    else
      match ReadItems(s, c + 1, braced, depth, count, seen)
      case None => None
      case Some((rest, end)) => Some((s[e..c], rest, end))
  }

  // ---- a text in place: the parts of `Print`, one behind the other ----

  ghost predicate TextAt(s: seq<Byte>, i: nat, t: Text)
    requires IsText(t)
    decreases t
  {
    var a := i + |t.pre|;
    Spelled(s, i, t.pre) &&
    match t
    case Str(_, units) =>
      ByteAt(s, a, QUOTE) && Spelled(s, a + 1, PrintUnits(units)) && ByteAt(s, a + 1 + |PrintUnits(units)|, QUOTE)
    case Prim(_, literal) => Spelled(s, a, PrintLiteral(literal))
    case Group(_, braced, blank, items) =>
      ByteAt(s, a, Open(braced)) && Spelled(s, a + 1, blank) && ItemsAt(s, a + 1 + |blank|, braced, items) &&
      ByteAt(s, a + 1 + |blank| + LengthOfItems(braced, items), Close(braced))
  }

  ghost predicate ItemsAt(s: seq<Byte>, i: nat, braced: bool, items: Items)
    requires AreItems(braced, items)
    decreases items, 0
  {
    match items
    case Nil => i <= |s|
    case Elem(v, post, rest) => TextAt(s, i, v) && AfterAt(s, i + Length(v), braced, post, rest)
    case Member(k, mid, v, post, rest) =>
      TextAt(s, i, k) && Spelled(s, i + Length(k), mid) && ByteAt(s, i + Length(k) + |mid|, COLON) &&
      TextAt(s, i + Length(k) + |mid| + 1, v) &&
      AfterAt(s, i + Length(k) + |mid| + 1 + Length(v), braced, post, rest)
  }

  ghost predicate AfterAt(s: seq<Byte>, e: nat, braced: bool, post: seq<Byte>, rest: Items)
    requires AreItems(braced, rest)
    decreases rest, 1
  {
    var c := e + |post|;
    Spelled(s, e, post) && (rest.Nil? || (ByteAt(s, c, COMMA) && ItemsAt(s, c + 1, braced, rest)))
  }

  lemma SpelledSix(s: seq<Byte>, i: nat, a: seq<Byte>, b: seq<Byte>, c: seq<Byte>, d: seq<Byte>, e: seq<Byte>,
                   f: seq<Byte>)
    ensures Spelled(s, i, a + b + c + d + e + f) <==>
            Spelled(s, i, a) && Spelled(s, i + |a|, b) && Spelled(s, i + |a| + |b|, c) &&
            Spelled(s, i + |a| + |b| + |c|, d) && Spelled(s, i + |a| + |b| + |c| + |d|, e) &&
            Spelled(s, i + |a| + |b| + |c| + |d| + |e|, f)
  {
    hide Spelled;
    SpelledConcat(s, i, a + b + c + d + e, f);
    SpelledConcat(s, i, a + b + c + d, e);
    SpelledConcat(s, i, a + b + c, d);
    SpelledConcat(s, i, a + b, c);
    SpelledConcat(s, i, a, b);
  }

  lemma {:induction false} TextAtPrints(s: seq<Byte>, i: nat, t: Text)
    requires IsText(t)
    ensures TextAt(s, i, t) <==> Spelled(s, i, Print(t))
    decreases t
  {
    hide Spelled, ByteAt, AllBlank, AreItems, PrintItems, ItemsAt, LengthOfItems, PrintUnits, PrintLiteral, Keys;
    var a := i + |t.pre|;
    match t
    case Str(pre, units) =>
      var p := PrintUnits(units);
      SpelledConcat(s, i, pre + [QUOTE] + p, [QUOTE]);
      SpelledConcat(s, i, pre + [QUOTE], p);
      SpelledConcat(s, i, pre, [QUOTE]);
      SpelledByte(s, a, QUOTE);
      SpelledByte(s, a + 1 + |p|, QUOTE);
    case Prim(pre, literal) =>
      SpelledConcat(s, i, pre, PrintLiteral(literal));
    case Group(pre, braced, blank, items) =>
      var o, p, c := [Open(braced)], PrintItems(braced, items), [Close(braced)];
      ItemsAtPrints(s, a + 1 + |blank|, braced, items);
      SpelledConcat(s, i, pre + o + blank + p, c);
      SpelledConcat(s, i, pre + o + blank, p);
      SpelledConcat(s, i, pre + o, blank);
      SpelledConcat(s, i, pre, o);
      SpelledByte(s, a, Open(braced));
      SpelledByte(s, a + 1 + |blank| + |p|, Close(braced));
  }

  lemma {:induction false} ItemsAtPrints(s: seq<Byte>, i: nat, braced: bool, items: Items)
    requires AreItems(braced, items)
    ensures ItemsAt(s, i, braced, items) <==> Spelled(s, i, PrintItems(braced, items))
    decreases items, 0
  {
    hide Spelled, IsText, Print, TextAt, Length, AllBlank, AfterAt, PrintRest, LengthOfRest, ByteAt;
    match items
    case Nil => SpelledEmpty(s, i);
    case Elem(v, post, rest) =>
      TextAtPrints(s, i, v);
      AfterAtPrints(s, i + Length(v), braced, post, rest);
      SpelledConcat(s, i, Print(v) + post, PrintRest(braced, rest));
      SpelledConcat(s, i, Print(v), post);
    case Member(k, mid, v, post, rest) =>
      var kk, vv := Print(k), Print(v);
      TextAtPrints(s, i, k);
      TextAtPrints(s, i + Length(k) + |mid| + 1, v);
      AfterAtPrints(s, i + Length(k) + |mid| + 1 + Length(v), braced, post, rest);
      SpelledSix(s, i, kk, mid, [COLON], vv, post, PrintRest(braced, rest));
      SpelledByte(s, i + Length(k) + |mid|, COLON);
  }

  lemma {:induction false} AfterAtPrints(s: seq<Byte>, e: nat, braced: bool, post: seq<Byte>, rest: Items)
    requires AreItems(braced, rest)
    ensures AfterAt(s, e, braced, post, rest) <==>
            Spelled(s, e, post) && Spelled(s, e + |post|, PrintRest(braced, rest))
    decreases rest, 1
  {
    hide Spelled, ByteAt, AllBlank, AreItems, PrintItems, ItemsAt, LengthOfItems;
    if rest.Nil? {
      SpelledEmpty(s, e + |post|);
      SpelledEnd(s, e, post);
    } else {
      ItemsAtPrints(s, e + |post| + 1, braced, rest);
      SpelledConcat(s, e + |post|, [COMMA], PrintItems(braced, rest));
      SpelledByte(s, e + |post|, COMMA);
    }
  }

  // ---- soundness: what is read is a text of the grammar, in place, within the bounds ----

  ghost predicate GoodText(s: seq<Byte>, i: nat, depth: nat, count: nat, t: Text, end: nat) {
    IsText(t) && TextAt(s, i, t) && end == i + Length(t) &&
    depth + Height(t) <= MAX_DEPTH && count + Count(t) <= TOKEN_COUNT
  }

  ghost predicate GoodItems(s: seq<Byte>, i: nat, braced: bool, depth: nat, count: nat, seen: seq<seq<int>>,
                            items: Items, end: nat) {
    AreItems(braced, items) && ItemsAt(s, i, braced, items) &&
    ByteAt(s, i + LengthOfItems(braced, items), Close(braced)) && end == i + LengthOfItems(braced, items) + 1 &&
    depth + HeightItems(items) <= MAX_DEPTH && count + CountItems(items) <= TOKEN_COUNT &&
    Distinct(seen + Keys(items))
  }

  ghost predicate GoodAfter(s: seq<Byte>, e: nat, braced: bool, depth: nat, count: nat, seen: seq<seq<int>>,
                            post: seq<Byte>, rest: Items, end: nat) {
    AllBlank(post) && AreItems(braced, rest) && AfterAt(s, e, braced, post, rest) &&
    ByteAt(s, e + |post| + LengthOfRest(braced, rest), Close(braced)) &&
    end == e + |post| + LengthOfRest(braced, rest) + 1 &&
    (rest.Nil? || (depth + HeightItems(rest) <= MAX_DEPTH && count + CountItems(rest) <= TOKEN_COUNT)) &&
    Distinct(seen + Keys(rest))
  }

  lemma SpelledSlice(s: seq<Byte>, i: nat, a: nat)
    requires i <= a <= |s|
    ensures Spelled(s, i, s[i..a])
  {
  }

  lemma StrSound(s: seq<Byte>, i: nat)
    requires UnitsAt(s, i).Some?
    ensures var (units, end) := UnitsAt(s, i).value;
            AllInString(units) && Spelled(s, i, PrintUnits(units)) && ByteAt(s, i + |PrintUnits(units)|, QUOTE) &&
            end == i + |PrintUnits(units)| + 1
  {
    hide Spelled, ByteAt, AllInString, PrintUnits;
    UnitsAtSound(s, i);
    var (units, end) := UnitsAt(s, i).value;
    SpelledConcat(s, i, PrintUnits(units), [QUOTE]);
    SpelledByte(s, i + |PrintUnits(units)|, QUOTE);
  }

  lemma {:induction false} ReadValueSound(s: seq<Byte>, i: nat, depth: nat, count: nat)
    requires i <= |s| && ReadValue(s, i, depth, count).Some?
    ensures var (t, end) := ReadValue(s, i, depth, count).value;
            GoodText(s, i, depth, count, t, end) && t.pre == s[i..Skip(s, i)]
    decreases |s| - i, 0
  {
    hide Spelled, AllBlank, AreItems, ItemsAt, LengthOfItems, PrintUnits, PrintLiteral, Keys, Skip, UnitsAt, LiteralEnd,
         LiteralAt, AllInString, IsLiteral, Distinct, ReadItems;
    var (t, end) := ReadValue(s, i, depth, count).value;
    var a := Skip(s, i);
    SkipBlanks(s, i);
    SpelledSlice(s, i, a);
    match t
    case Str(pre, units) =>
      StrSound(s, a + 1);
    case Prim(pre, literal) =>
      LiteralSound(s, a);
      SpelledSlice(s, a, end);
    case Group(pre, braced, blank, items) =>
      var b := Skip(s, a + 1);
      SkipBlanks(s, a + 1);
      SpelledSlice(s, a + 1, b);
      if items.Nil? {
        EmptyItems(s, b, braced);
      } else {
        NothingSeen();
        ReadItemsSound(s, b, braced, depth + 1, count + 1, []);
        assert [] + Keys(items) == Keys(items);
        SkipTwice(s, a + 1);
      }
      GroupSound(s, i, depth, count, t);
  }

  lemma GroupSound(s: seq<Byte>, i: nat, depth: nat, count: nat, t: Text)
    requires t.Group? && Spelled(s, i, t.pre) && AllBlank(t.pre) && AllBlank(t.blank) && FirstPre(t.items) == []
    requires AreItems(t.braced, t.items) && Distinct(Keys(t.items))
    requires depth <= MAX_DEPTH && count < TOKEN_COUNT
    requires t.items.Nil? ||
             (depth + 1 + HeightItems(t.items) <= MAX_DEPTH && count + 1 + CountItems(t.items) <= TOKEN_COUNT)
    requires var a := i + |t.pre|;
             var b := a + 1 + |t.blank|;
             ByteAt(s, a, Open(t.braced)) && Spelled(s, a + 1, t.blank) && ItemsAt(s, b, t.braced, t.items) &&
             ByteAt(s, b + LengthOfItems(t.braced, t.items), Close(t.braced))
    ensures GoodText(s, i, depth, count, t, i + Length(t))
  {
    hide Spelled, AllBlank, AreItems, ItemsAt, LengthOfItems, Keys, Distinct, ByteAt;
    assert IsText(t);
    assert TextAt(s, i, t);
    assert depth + Height(t) <= MAX_DEPTH;
    assert count + Count(t) <= TOKEN_COUNT;
  }

  lemma EmptyItems(s: seq<Byte>, i: nat, braced: bool)
    ensures AreItems(braced, Nil) && LengthOfItems(braced, Nil) == 0 && Distinct(Keys(Nil))
    ensures ItemsAt(s, i, braced, Nil) <==> i <= |s|
  {
  }

  lemma SkipTwice(s: seq<Byte>, i: nat)
    ensures Skip(s, Skip(s, i)) == Skip(s, i)
  {
  }

  lemma {:induction false} ReadItemsSound(s: seq<Byte>, i: nat, braced: bool, depth: nat, count: nat,
                                          seen: seq<seq<int>>)
    requires i <= |s| && ReadItems(s, i, braced, depth, count, seen).Some? && Distinct(seen)
    ensures var (items, end) := ReadItems(s, i, braced, depth, count, seen).value;
            GoodItems(s, i, braced, depth, count, seen, items, end) && FirstPre(items) == s[i..Skip(s, i)]
    decreases |s| - i, 1
  {
    hide Spelled, AllBlank, IsText, TextAt, Length, Skip, ReadValue, ReadAfter, LengthOfRest, AfterAt, AllInString,
         Codes;
    var (items, end) := ReadItems(s, i, braced, depth, count, seen).value;
    var (v, e) := ReadValue(s, i, depth, count).value;
    ReadValueSound(s, i, depth, count);
    if !braced {
      ReadAfterSound(s, e, braced, depth, count + Count(v), seen);
      assert AreItems(braced, items);
      assert ItemsAt(s, i, braced, items);
      assert Keys(items) == Keys(items.rest);
      assert depth + HeightItems(items) <= MAX_DEPTH;
      assert count + CountItems(items) <= TOKEN_COUNT;
    } else {
      var c := Skip(s, e);
      SkipBlanks(s, e);
      SpelledSlice(s, e, c);
      var (w, f) := ReadValue(s, c + 1, depth, count + Count(v)).value;
      ReadValueSound(s, c + 1, depth, count + Count(v));
      var more := seen + [Codes(v.units)];
      DistinctMore(seen, Codes(v.units));
      ReadAfterSound(s, f, braced, depth, count + Count(v) + Count(w), more);
      assert more + Keys(items.rest) == seen + Keys(items);
    }
  }

  lemma {:induction false} ReadAfterSound(s: seq<Byte>, e: nat, braced: bool, depth: nat, count: nat,
                                          seen: seq<seq<int>>)
    requires e <= |s| && ReadAfter(s, e, braced, depth, count, seen).Some? && Distinct(seen)
    ensures var (post, rest, end) := ReadAfter(s, e, braced, depth, count, seen).value;
            GoodAfter(s, e, braced, depth, count, seen, post, rest, end)
    decreases |s| - e, 2
  {
    hide Spelled, AllBlank, Skip, ReadItems, ItemsAt, AreItems, LengthOfItems, Keys, HeightItems, CountItems;
    var (post, rest, end) := ReadAfter(s, e, braced, depth, count, seen).value;
    var c := Skip(s, e);
    SkipBlanks(s, e);
    SpelledSlice(s, e, c);
    if rest.Nil? {
      EmptyItems(s, c, braced);
      NoKeys(seen);
    } else {
      ReadItemsSound(s, c + 1, braced, depth, count, seen);
    }
  }

  lemma NoKeys(seen: seq<seq<int>>)
    ensures seen + Keys(Nil) == seen
  {
  }

  lemma NothingSeen()
    ensures Distinct<seq<int>>([])
  {
  }

  lemma DistinctMore(seen: seq<seq<int>>, key: seq<int>)
    requires Distinct(seen) && key !in seen
    ensures Distinct(seen + [key])
  {
  }

  // ---- completeness: every text of the grammar within the bounds is read, and read as itself ----

  lemma LiteralFirstByte(l: Literal)
    requires IsLiteral(l)
    ensures LiteralFirst(PrintLiteral(l)[0])
  {
    if l.Number? && !l.minus {
      assert PrintLiteral(l)[0] == l.whole[0];
    }
  }

  /** Nothing a value begins with is white space, a closing bracket or the end. */
  lemma TextFirst(s: seq<Byte>, i: nat, t: Text)
    requires IsText(t) && TextAt(s, i, t)
    ensures var a := i + |t.pre|;
            a < |s| && !Blank(s[a]) && s[a] != Close(true) && s[a] != Close(false) && Skip(s, i) == a &&
            s[i..a] == t.pre
    ensures t.Prim? ==> LiteralFirst(s[i + |t.pre|])
  {
    hide Spelled;
    var a := i + |t.pre|;
    if t.Prim? {
      LiteralFirstByte(t.literal);
      SpelledFirst(s, a, PrintLiteral(t.literal));
    }
    SpelledIs(s, i, t.pre);
    SkipComplete(s, i, t.pre);
  }

  lemma SpelledIs(s: seq<Byte>, i: nat, t: seq<Byte>)
    requires Spelled(s, i, t)
    ensures i + |t| <= |s| && s[i..i + |t|] == t
  {
  }

  lemma StrComplete(s: seq<Byte>, i: nat, units: seq<Unit>)
    requires AllInString(units) && Spelled(s, i, PrintUnits(units)) && ByteAt(s, i + |PrintUnits(units)|, QUOTE)
    ensures UnitsAt(s, i) == Some((units, i + |PrintUnits(units)| + 1))
  {
    hide Spelled, ByteAt, AllInString, PrintUnits, UnitsAt;
    SpelledConcat(s, i, PrintUnits(units), [QUOTE]);
    SpelledByte(s, i + |PrintUnits(units)|, QUOTE);
    UnitsAtComplete(s, i, units);
  }

  lemma {:induction false} ReadValueComplete(s: seq<Byte>, i: nat, depth: nat, count: nat, t: Text)
    requires i <= |s| && IsText(t) && TextAt(s, i, t) && EndsNumber(At(s, i + Length(t)))
    requires depth + Height(t) <= MAX_DEPTH && count + Count(t) <= TOKEN_COUNT
    ensures ReadValue(s, i, depth, count) == Some((t, i + Length(t)))
    decreases t
  {
    hide Spelled, AllBlank, AreItems, ItemsAt, LengthOfItems, PrintUnits, PrintLiteral, Keys, Skip, UnitsAt, LiteralEnd,
         LiteralAt, AllInString, IsLiteral, Distinct, ReadItems, EndsNumber;
    TextFirst(s, i, t);
    var a := i + |t.pre|;
    match t
    case Str(pre, units) =>
      StrComplete(s, a + 1, units);
    case Prim(pre, literal) =>
      LiteralComplete(s, a, literal);
    case Group(pre, braced, blank, items) =>
      var b := a + 1 + |blank|;
      SpelledIs(s, a + 1, blank);
      if items.Nil? {
        EmptyItems(s, b, braced);
        CloseNotBlank(s, b, braced);
        SkipComplete(s, a + 1, blank);
      } else {
        ItemsFirst(s, b, braced, items);
        SkipComplete(s, a + 1, blank);
        assert [] + Keys(items) == Keys(items);
        ReadItemsComplete(s, b, braced, depth + 1, count + 1, [], items);
      }
  }

  lemma CloseNotBlank(s: seq<Byte>, b: nat, braced: bool)
    requires ByteAt(s, b, Close(braced))
    ensures !Blank(At(s, b))
  {
  }

  lemma ItemsFirst(s: seq<Byte>, i: nat, braced: bool, items: Items)
    requires AreItems(braced, items) && !items.Nil? && ItemsAt(s, i, braced, items) && FirstPre(items) == []
    ensures i < |s| && !Blank(At(s, i)) && At(s, i) != Close(true) && At(s, i) != Close(false)
  {
    TextFirst(s, i, if items.Elem? then items.value else items.key);
  }

  lemma BlankEndsNumber(b: Byte)
    ensures Blank(b) || b == COMMA || b == COLON || b == Close(true) || b == Close(false) ==> EndsNumber(b)
  {
  }

  lemma SpelledBlankOr(s: seq<Byte>, e: nat, t: seq<Byte>, b: Byte)
    requires Spelled(s, e, t) && AllBlank(t) && ByteAt(s, e + |t|, b)
    ensures Blank(At(s, e)) || At(s, e) == b
  {
    if t != [] {
      SpelledFirst(s, e, t);
    }
  }

  lemma {:induction false} ReadItemsComplete(s: seq<Byte>, i: nat, braced: bool, depth: nat, count: nat,
                                             seen: seq<seq<int>>, items: Items)
    requires i <= |s| && AreItems(braced, items) && !items.Nil? && ItemsAt(s, i, braced, items)
    requires ByteAt(s, i + LengthOfItems(braced, items), Close(braced))
    requires depth + HeightItems(items) <= MAX_DEPTH && count + CountItems(items) <= TOKEN_COUNT
    requires Distinct(seen + Keys(items))
    ensures ReadItems(s, i, braced, depth, count, seen) == Some((items, i + LengthOfItems(braced, items) + 1))
    decreases items, 0
  {
    hide Spelled, AllBlank, IsText, TextAt, Length, Skip, ReadValue, ReadAfter, LengthOfRest, AfterAt, AllInString,
         Codes,
         EndsNumber, ByteAt, At, Distinct;
    match items
    case Elem(v, post, rest) =>
      AfterEnds(s, i + Length(v), braced, post, rest);
      ReadValueComplete(s, i, depth, count, v);
      ReadAfterComplete(s, i + Length(v), braced, depth, count + Count(v), seen, post, rest);
    case Member(k, mid, v, post, rest) =>
      var c := i + Length(k) + |mid|;
      var f := c + 1 + Length(v);
      MidEnds(s, i + Length(k), mid);
      ReadValueComplete(s, i, depth, count, k);
      AfterEnds(s, f, braced, post, rest);
      ReadValueComplete(s, c + 1, depth, count + Count(k), v);
      StrUnits(k);
      NotSeen(seen, Codes(k.units), Keys(rest));
      assert Keys(items) == [Codes(k.units)] + Keys(rest);
      ReadAfterComplete(s, f, braced, depth, count + Count(k) + Count(v), seen + [Codes(k.units)], post, rest);
  }

  lemma StrUnits(k: Text)
    requires IsText(k) && k.Str?
    ensures AllInString(k.units)
  {
  }

  lemma NotSeen(seen: seq<seq<int>>, key: seq<int>, rest: seq<seq<int>>)
    requires Distinct(seen + ([key] + rest))
    ensures key !in seen && Distinct((seen + [key]) + rest)
  {
    var all := seen + ([key] + rest);
    assert (seen + [key]) + rest == all;
    assert all[|seen|] == key;
    forall i | 0 <= i < |seen|
      ensures seen[i] != key
    {
      assert all[i] == seen[i];
    }
  }

  /** The white space between a name and its colon. */
  lemma MidEnds(s: seq<Byte>, e: nat, mid: seq<Byte>)
    requires Spelled(s, e, mid) && AllBlank(mid) && ByteAt(s, e + |mid|, COLON)
    ensures EndsNumber(At(s, e)) && Skip(s, e) == e + |mid| && At(s, Skip(s, e)) == COLON && Skip(s, e) < |s|
    ensures s[e..Skip(s, e)] == mid
  {
    SpelledBlankOr(s, e, mid, COLON);
    BlankEndsNumber(At(s, e));
    SkipComplete(s, e, mid);
  }

  lemma AfterEnds(s: seq<Byte>, e: nat, braced: bool, post: seq<Byte>, rest: Items)
    requires AllBlank(post) && AreItems(braced, rest) && AfterAt(s, e, braced, post, rest)
    requires ByteAt(s, e + |post| + LengthOfRest(braced, rest), Close(braced))
    ensures EndsNumber(At(s, e)) && e <= |s|
  {
    SpelledBlankOr(s, e, post, if rest.Nil? then Close(braced) else COMMA);
    BlankEndsNumber(At(s, e));
  }

  lemma {:induction false} ReadAfterComplete(s: seq<Byte>, e: nat, braced: bool, depth: nat, count: nat,
                                             seen: seq<seq<int>>, post: seq<Byte>, rest: Items)
    requires e <= |s| && AllBlank(post) && AreItems(braced, rest) && AfterAt(s, e, braced, post, rest)
    requires ByteAt(s, e + |post| + LengthOfRest(braced, rest), Close(braced))
    requires depth + HeightItems(rest) <= MAX_DEPTH && count + CountItems(rest) <= TOKEN_COUNT
    requires Distinct(seen + Keys(rest))
    ensures ReadAfter(s, e, braced, depth, count, seen) ==
            Some((post, rest, e + |post| + LengthOfRest(braced, rest) + 1))
    decreases rest, 1
  {
    hide Spelled, AllBlank, Skip, ReadItems, ItemsAt, AreItems, LengthOfItems, Keys, HeightItems, CountItems, Distinct;
    SpelledIs(s, e, post);
    SkipComplete(s, e, post);
    if !rest.Nil? {
      ReadItemsComplete(s, e + |post| + 1, braced, depth, count, seen, rest);
    }
  }

  // ---- whole documents ----

  /** What `parse_frame` asks for, in terms of reading. */
  ghost predicate ReadsDocument(s: seq<Byte>, t: Text) {
    var r := ReadValue(s, 0, 0, 0);
    r.Some? && r.value.0 == t && t.Group? && t.braced && Skip(s, r.value.1) == |s|
  }

  lemma AllBlankSkips(s: seq<Byte>, n: nat)
    requires n <= |s|
    ensures AllBlank(s[n..]) <==> Skip(s, n) == |s|
    ensures AllBlank(s[n..]) ==> EndsNumber(At(s, n))
  {
    assert s[n..n + |s[n..]|] == s[n..];
    if AllBlank(s[n..]) {
      SkipComplete(s, n, s[n..]);
      assert n < |s| ==> Blank(s[n..][0]);
      BlankEndsNumber(At(s, n));
    }
    SkipBlanks(s, n);
    assert s[n..|s|] == s[n..];
  }

  lemma PrefixSpelled(s: seq<Byte>, t: seq<Byte>)
    ensures t <= s <==> Spelled(s, 0, t)
  {
    if |t| <= |s| {
      assert s[0..|t|] == s[..|t|];
    }
  }

  /** Reading finds exactly the documents, so a document has one tree only. */
  lemma ReadDocument(s: seq<Byte>, t: Text)
    ensures IsDocument(t, s) <==> ReadsDocument(s, t)
  {
    hide Spelled, IsText, Print, TextAt, Length, ReadValue, Skip, AllBlank, EndsNumber;
    if IsDocument(t, s) {
      TextAtPrints(s, 0, t);
      PrefixSpelled(s, Print(t));
      AllBlankSkips(s, Length(t));
      ReadValueComplete(s, 0, 0, 0, t);
    }
    if ReadsDocument(s, t) {
      ReadValueSound(s, 0, 0, 0);
      TextAtPrints(s, 0, t);
      PrefixSpelled(s, Print(t));
      AllBlankSkips(s, Length(t));
    }
  }

  // ---- no text contains a NUL byte ----

  ghost predicate NoNul(s: seq<Byte>, i: nat, j: nat) {
    j <= |s| && forall k :: i <= k < j ==> s[k] != 0
  }

  lemma SpelledNoNul(s: seq<Byte>, i: nat, t: seq<Byte>)
    requires Spelled(s, i, t) && forall k :: 0 <= k < |t| ==> t[k] != 0
    ensures NoNul(s, i, i + |t|)
  {
    forall k | i <= k < i + |t|
      ensures s[k] != 0
    {
      assert s[k] == s[i..i + |t|][k - i] == t[k - i];
    }
  }

  lemma UnitNoNul(u: Unit)
    requires InString(u)
    ensures forall k :: 0 <= k < |PrintUnit(u)| ==> PrintUnit(u)[k] != 0
  {
  }

  lemma {:induction false} UnitsNoNul(units: seq<Unit>)
    requires AllInString(units)
    ensures forall k :: 0 <= k < |PrintUnits(units)| ==> PrintUnits(units)[k] != 0
  {
    if units != [] {
      UnitNoNul(units[0]);
      UnitsNoNul(units[1..]);
    }
  }

  lemma LiteralNoNul(l: Literal)
    requires IsLiteral(l)
    ensures forall k :: 0 <= k < |PrintLiteral(l)| ==> PrintLiteral(l)[k] != 0
  {
    if l.Number? {
      var m := if l.minus then [MINUS] else [];
      assert PrintLiteral(l) == m + l.whole + PrintFraction(l.fraction) + PrintExponent(l.exponent);
    }
  }

  lemma BlanksNoNul(s: seq<Byte>, i: nat, t: seq<Byte>)
    requires Spelled(s, i, t) && AllBlank(t)
    ensures NoNul(s, i, i + |t|)
  {
    SpelledNoNul(s, i, t);
  }

  lemma {:induction false} TextNoNul(s: seq<Byte>, i: nat, t: Text)
    requires IsText(t) && TextAt(s, i, t)
    ensures NoNul(s, i, i + Length(t))
    decreases t
  {
    hide Spelled, AreItems, ItemsAt, PrintUnits, PrintLiteral, Keys, AllBlank, AllInString, IsLiteral, LengthOfItems;
    var a := i + |t.pre|;
    BlanksNoNul(s, i, t.pre);
    match t
    case Str(pre, units) =>
      UnitsNoNul(units);
      SpelledNoNul(s, a + 1, PrintUnits(units));
    case Prim(pre, literal) =>
      LiteralNoNul(literal);
      SpelledNoNul(s, a, PrintLiteral(literal));
    case Group(pre, braced, blank, items) =>
      BlanksNoNul(s, a + 1, blank);
      ItemsNoNul(s, a + 1 + |blank|, braced, items);
  }

  lemma {:induction false} ItemsNoNul(s: seq<Byte>, i: nat, braced: bool, items: Items)
    requires AreItems(braced, items) && ItemsAt(s, i, braced, items)
    ensures NoNul(s, i, i + LengthOfItems(braced, items))
    decreases items, 0
  {
    hide Spelled, IsText, TextAt, Length, AllBlank, AfterAt, LengthOfRest;
    match items
    case Nil =>
    case Elem(v, post, rest) =>
      TextNoNul(s, i, v);
      AfterNoNul(s, i + Length(v), braced, post, rest);
    case Member(k, mid, v, post, rest) =>
      TextNoNul(s, i, k);
      BlanksNoNul(s, i + Length(k), mid);
      TextNoNul(s, i + Length(k) + |mid| + 1, v);
      AfterNoNul(s, i + Length(k) + |mid| + 1 + Length(v), braced, post, rest);
  }

  lemma {:induction false} AfterNoNul(s: seq<Byte>, e: nat, braced: bool, post: seq<Byte>, rest: Items)
    requires AreItems(braced, rest) && AllBlank(post) && AfterAt(s, e, braced, post, rest)
    ensures NoNul(s, e, e + |post| + LengthOfRest(braced, rest))
    decreases rest, 1
  {
    hide Spelled, AreItems, ItemsAt, LengthOfItems, AllBlank;
    BlanksNoNul(s, e, post);
    if !rest.Nil? {
      ItemsNoNul(s, e + |post| + 1, braced, rest);
    }
  }

  lemma DocumentNoNul(t: Text, s: seq<Byte>)
    requires IsDocument(t, s)
    ensures forall k :: 0 <= k < |s| ==> s[k] != 0
  {
    hide IsText, Print, TextAt, Length, Spelled;
    TextAtPrints(s, 0, t);
    PrefixSpelled(s, Print(t));
    TextNoNul(s, 0, t);
    var n := Length(t);
    forall k | n <= k < |s|
      ensures s[k] != 0
    {
      assert Blank(s[n..][k - n]);
    }
  }
}
