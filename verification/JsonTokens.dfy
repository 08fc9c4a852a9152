/** Facts about the token array of a tree: what a reader of the array may rely on. */
module JsonTokens {
  import opened Options
  import opened JsonGrammar
  import opened JsonStrings
  import opened JsonLiterals
  import opened JsonReading

  /** The token of a string whose characters are `units`. */
  ghost predicate IsStr(s: seq<Byte>, token: Token, units: seq<Unit>) {
    token.kind == QUOTE && token.start >= 0 && AllInString(units) &&
    Spelled(s, token.start + 1, PrintUnits(units)) && token.end == token.start + 2 + |PrintUnits(units)| &&
    token.end <= |s|
  }

  lemma StrToken(s: seq<Byte>, at: nat, k: Text, base: int)
    requires IsText(k) && k.Str? && TextAt(s, at, k)
    ensures |Tokens(k, at, base)| == 1 && IsStr(s, Tokens(k, at, base)[0], k.units)
  {
  }

  /** Member names in the array: from token `i`, name and value alternate until `end`, and the names decode to
      `seen`. */
  ghost predicate KeyChain(s: seq<Byte>, tokens: seq<Token>, i: int, end: int, seen: seq<seq<int>>)
    decreases |seen|
  {
    if seen == [] then i == end
    else
      0 <= i && i + 1 < |tokens| && i + 1 < tokens[i + 1].next <= end <= |tokens| &&
      (exists units :: IsStr(s, tokens[i], units) && Codes(units) == seen[0]) &&
      KeyChain(s, tokens, tokens[i + 1].next, end, seen[1..])
  }

  lemma {:induction false} KeyChainKept(s: seq<Byte>, tokens: seq<Token>, more: seq<Token>, i: nat, end: nat,
                                        seen: seq<seq<int>>)
    requires KeyChain(s, tokens, i, end, seen) && end <= |tokens| && end <= |more| && tokens[..end] == more[..end]
    ensures KeyChain(s, more, i, end, seen)
    decreases |seen|
  {
    hide IsStr;
    if seen != [] {
      assert tokens[i] == tokens[..end][i] == more[..end][i];
      assert tokens[i + 1] == tokens[..end][i + 1] == more[..end][i + 1];
      KeyChainKept(s, tokens, more, tokens[i + 1].next, end, seen[1..]);
    }
  }

  lemma {:induction false} KeyChainMore(s: seq<Byte>, tokens: seq<Token>, i: nat, end: nat, seen: seq<seq<int>>,
                                        units: seq<Unit>, last: nat)
    requires KeyChain(s, tokens, i, end, seen) && i <= end
    requires end + 1 < last <= |tokens| && tokens[end + 1].next == last && IsStr(s, tokens[end], units)
    ensures KeyChain(s, tokens, i, last, seen + [Codes(units)])
    decreases |seen|
  {
    hide Spelled, PrintUnits, AllInString, Codes;
    var all := seen + [Codes(units)];
    if seen == [] {
      assert all[1..] == [];
      assert KeyChain(s, tokens, last, last, []);
    } else {
      KeyChainMore(s, tokens, tokens[i + 1].next, end, seen[1..], units, last);
      assert all[1..] == seen[1..] + [Codes(units)];
      assert all[0] == seen[0];
    }
  }

  // ---- walking a group from left to right ----

  /** The walk so far: the group began at byte `b` with token `base`; its items are still to be read from byte `at` on,
      and `done` holds the tokens written. */
  ghost predicate Walks(braced: bool, b: nat, base: nat, full: Option<(Items, nat)>, at: nat, count: nat,
                        rest: Option<(Items, nat)>, done: seq<Token>) {
    (full.Some? <==> rest.Some?) &&
    (full.Some? ==>
      full.value.1 == rest.value.1 && AreItems(braced, full.value.0) && AreItems(braced, rest.value.0) &&
      TokensOfItems(braced, full.value.0, b, base) == done + TokensOfItems(braced, rest.value.0, at, count))
  }

  /** The same, just after an item that ends at byte `e`. */
  ghost predicate WalksAfter(braced: bool, b: nat, base: nat, full: Option<(Items, nat)>, e: nat, count: nat,
                             after: Option<(seq<Byte>, Items, nat)>, done: seq<Token>) {
    (full.Some? <==> after.Some?) &&
    (full.Some? ==>
      full.value.1 == after.value.2 && AreItems(braced, full.value.0) && AreItems(braced, after.value.1) &&
      TokensOfItems(braced, full.value.0, b, base) ==
      done + TokensOfItems(braced, after.value.1, e + |after.value.0| + 1, count))
  }

  lemma Append3<T>(a: seq<T>, b: seq<T>, c: seq<T>)
    ensures a + (b + c) == a + b + c
  {
  }

  lemma WalkElem(s: seq<Byte>, depth: nat, b: nat, base: nat, full: Option<(Items, nat)>, at: nat, count: nat,
                 seen: seq<seq<int>>, done: seq<Token>)
    requires at <= |s| && Walks(false, b, base, full, at, count, ReadItems(s, at, false, depth, count, seen), done)
    requires ReadValue(s, at, depth, count).Some? && IsText(ReadValue(s, at, depth, count).value.0)
    requires ReadValue(s, at, depth, count).value.1 == at + Length(ReadValue(s, at, depth, count).value.0)
    ensures var (v, e) := ReadValue(s, at, depth, count).value;
            WalksAfter(false, b, base, full, e, count + Count(v),
                       ReadAfter(s, e, false, depth, count + Count(v), seen), done + Tokens(v, at, count))
  {
    hide IsText, Tokens, Length, ReadValue, ReadAfter;
    var (v, e) := ReadValue(s, at, depth, count).value;
    var after := ReadAfter(s, e, false, depth, count + Count(v), seen);
    if after.Some? {
      var (post, rest, end) := after.value;
      assert ReadItems(s, at, false, depth, count, seen) == Some((Elem(v, post, rest), end));
      Append3(done, Tokens(v, at, count), TokensOfItems(false, rest, e + |post| + 1, count + Count(v)));
    }
  }

  lemma WalkMember(s: seq<Byte>, depth: nat, b: nat, base: nat, full: Option<(Items, nat)>, at: nat, count: nat,
                   seen: seq<seq<int>>, done: seq<Token>, k: Text, c: nat, v: Text, f: nat)
    requires at <= |s| && Walks(true, b, base, full, at, count, ReadItems(s, at, true, depth, count, seen), done)
    requires IsText(k) && k.Str? && AllInString(k.units) && Codes(k.units) !in seen
    requires ReadValue(s, at, depth, count) == Some((k, at + Length(k)))
    requires c == Skip(s, at + Length(k)) && at + Length(k) <= |s| && At(s, c) == COLON && c + 1 <= |s|
    requires IsText(v) && f == c + 1 + Length(v) && ReadValue(s, c + 1, depth, count + Count(k)) == Some((v, f))
    ensures WalksAfter(true, b, base, full, f, count + Count(k) + Count(v),
                       ReadAfter(s, f, true, depth, count + Count(k) + Count(v), seen + [Codes(k.units)]),
                       done + Tokens(k, at, count) + Tokens(v, c + 1, count + Count(k)))
  {
    hide IsText, Tokens, Length, ReadValue, ReadAfter, AllInString, Codes, Skip;
    var after := ReadAfter(s, f, true, depth, count + Count(k) + Count(v), seen + [Codes(k.units)]);
    if after.Some? {
      var (post, rest, end) := after.value;
      var mid := s[at + Length(k)..c];
      assert ReadItems(s, at, true, depth, count, seen) == Some((Member(k, mid, v, post, rest), end));
      var x, y := Tokens(k, at, count), Tokens(v, c + 1, count + Count(k));
      var z := TokensOfItems(true, rest, f + |post| + 1, count + Count(k) + Count(v));
      Append3(done, x + y, z);
      Append3(done, x, y);
    }
  }

  lemma WalkComma(s: seq<Byte>, braced: bool, depth: nat, b: nat, base: nat, full: Option<(Items, nat)>, e: nat,
                  count: nat, seen: seq<seq<int>>, done: seq<Token>)
    requires e <= |s| && At(s, Skip(s, e)) == COMMA && Skip(s, e) + 1 <= |s|
    requires WalksAfter(braced, b, base, full, e, count, ReadAfter(s, e, braced, depth, count, seen), done)
    ensures var at := Skip(s, e) + 1;
            Walks(braced, b, base, full, at, count, ReadItems(s, at, braced, depth, count, seen), done)
  {
    hide AreItems, ReadItems, TokensOfItems, Skip;
  }

  lemma WalkClose(s: seq<Byte>, braced: bool, depth: nat, b: nat, base: nat, full: Option<(Items, nat)>, e: nat,
                  count: nat, seen: seq<seq<int>>, done: seq<Token>)
    requires e <= |s| && At(s, Skip(s, e)) == Close(braced)
    requires WalksAfter(braced, b, base, full, e, count, ReadAfter(s, e, braced, depth, count, seen), done)
    ensures full.Some? && full.value.1 == Skip(s, e) + 1 && AreItems(braced, full.value.0)
    ensures |done| == CountItems(full.value.0) && TokensOfItems(braced, full.value.0, b, base) == done
  {
    hide Skip;
  }

  // ---- members by name ----

  /** Some member of `items` has the decoded name `name` and the value `v`. */
  ghost predicate HasMember(items: Items, name: seq<int>, v: Text) {
    match items
    case Nil => false
    case Elem(_, _, rest) => HasMember(rest, name, v)
    case Member(k, _, w, _, rest) =>
      (k.Str? && AllInString(k.units) && Codes(k.units) == name && v == w) || HasMember(rest, name, v)
  }

  lemma {:induction false} MemberNamed(items: Items, name: seq<int>, v: Text)
    requires HasMember(items, name, v)
    ensures name in Keys(items)
  {
    match items
    case Nil =>
    case Elem(_, _, rest) => MemberNamed(rest, name, v);
    case Member(_, _, _, _, rest) =>
      if HasMember(rest, name, v) {
        MemberNamed(rest, name, v);
      }
  }

  /** In a well-formed object a name has one value. */
  lemma {:induction false} MemberUnique(items: Items, name: seq<int>, v: Text, w: Text)
    requires Distinct(Keys(items)) && HasMember(items, name, v) && HasMember(items, name, w)
    ensures v == w
  {
    match items
    case Nil =>
    case Elem(_, _, rest) => MemberUnique(rest, name, v, w);
    case Member(k, _, x, _, rest) =>
      DistinctTail(items);
      if HasMember(rest, name, v) { MemberNamed(rest, name, v); }
      if HasMember(rest, name, w) { MemberNamed(rest, name, w); }
      if HasMember(rest, name, v) && HasMember(rest, name, w) {
        MemberUnique(rest, name, v, w);
      }
  }

  lemma DistinctTail(items: Items)
    requires items.Member? && Distinct(Keys(items))
    ensures Distinct(Keys(items.rest))
    ensures items.key.Str? && AllInString(items.key.units) ==> Codes(items.key.units) !in Keys(items.rest)
  {
    var q := Keys(items.rest);
    var head := if items.key.Str? && AllInString(items.key.units) then [Codes(items.key.units)] else [];
    assert Keys(items) == head + q;
    forall i | 0 <= i < |q|
      ensures q[i] == Keys(items)[|head| + i] && (head != [] ==> q[i] != head[0])
    {
      assert head != [] ==> Keys(items)[0] == head[0];
    }
    forall i, j | 0 <= i < j < |q|
      ensures q[i] != q[j]
    {
      assert Keys(items)[|head| + i] != Keys(items)[|head| + j];
    }
  }

  lemma SubSlice(a: seq<Token>, i: nat, end: nat, p: nat, q: nat)
    requires i <= end <= |a| && p <= q <= end - i
    ensures a[i..end][p..q] == a[i + p..i + q]
  {
    var x := a[i..end];
    assert forall k :: 0 <= k < q - p ==> x[p..q][k] == a[i + p..i + q][k];
  }

  // ---- the shape of the array ----

  /** Token `k` of a run numbered from `base` lies inside the bytes `start` to `end`, and its subtree ends after it but
      no later than `last`. */
  ghost predicate Nested(run: seq<Token>, k: nat, base: nat, start: int, end: int, last: int)
    requires k < |run|
  {
    start <= run[k].start < run[k].end <= end && base + k < run[k].next <= last
  }

  ghost predicate AllNested(run: seq<Token>, base: nat, start: int, end: int, last: int) {
    forall k :: 0 <= k < |run| ==> Nested(run, k, base, start, end, last)
  }

  lemma NestedConcat(x: seq<Token>, y: seq<Token>, base: nat, start: int, mid: int, end: int, last: int)
    requires AllNested(x, base, start, mid, base + |x|) && AllNested(y, base + |x|, mid, end, last)
    requires start <= mid <= end && base + |x| <= last
    ensures AllNested(x + y, base, start, end, last)
  {
    var run := x + y;
    forall k | 0 <= k < |run|
      ensures Nested(run, k, base, start, end, last)
    {
      if k < |x| {
        assert Nested(x, k, base, start, mid, base + |x|);
      } else {
        assert Nested(y, k - |x|, base + |x|, mid, end, last);
      }
    }
  }

  lemma RootNested(root: Token, inner: seq<Token>, base: nat, start: int, b: int, c: int, end: int)
    requires root.start == start < b <= c < end == root.end && root.next == base + 1 + |inner|
    requires AllNested(inner, base + 1, b, c, base + 1 + |inner|)
    ensures AllNested([root] + inner, base, start, end, base + 1 + |inner|)
  {
    var all, last := [root] + inner, base + 1 + |inner|;
    forall k | 0 <= k < |all|
      ensures Nested(all, k, base, start, end, last)
    {
      if k > 0 {
        assert Nested(inner, k - 1, base + 1, b, c, last);
      }
    }
  }

  /** In a subtree every token lies inside the text of the root, and `next` of every token marks a later token
      inside the subtree or its end. */
  lemma {:induction false} TokensNested(t: Text, at: nat, base: nat)
    requires IsText(t)
    ensures AllNested(Tokens(t, at, base), base, at + |t.pre|, at + Length(t), base + Count(t))
    decreases t
  {
    hide AreItems, TokensOfItems, LengthOfItems, PrintUnits, PrintLiteral, IsLiteral, AllInString;
    var all := Tokens(t, at, base);
    if t.Prim? {
      LiteralFirstByte(t.literal);
    }
    if t.Group? {
      var b := at + |t.pre| + 1 + |t.blank|;
      var inner := TokensOfItems(t.braced, t.items, b, base + 1);
      ItemsNested(t.braced, t.items, b, base + 1);
      RootNested(all[0], inner, base, at + |t.pre|, b, b + LengthOfItems(t.braced, t.items), at + Length(t));
    }
  }

  lemma {:induction false} ItemsNested(braced: bool, items: Items, at: nat, base: nat)
    requires AreItems(braced, items)
    ensures var r := TokensOfItems(braced, items, at, base);
            AllNested(r, base, at, at + LengthOfItems(braced, items), base + |r|)
    decreases items
  {
    hide IsText, Tokens, Length, AllNested, LengthOfRest, Count, CountItems;
    match items
    case Nil => NoneNested(base, at);
    case Elem(v, post, rest) =>
      var e := at + Length(v);
      TokensNested(v, at, base);
      ItemsNested(braced, rest, e + |post| + 1, base + Count(v));
      var x, z := Tokens(v, at, base), TokensOfItems(braced, rest, e + |post| + 1, base + Count(v));
      PairNested(x, z, base, at + |v.pre|, at, e, |post|, braced, rest);
    case Member(k, mid, v, post, rest) =>
      var colon := at + Length(k) + |mid|;
      var e := colon + 1 + Length(v);
      var x, y := Tokens(k, at, base), Tokens(v, colon + 1, base + Count(k));
      TokensNested(k, at, base);
      TokensNested(v, colon + 1, base + Count(k));
      ItemsNested(braced, rest, e + |post| + 1, base + Count(k) + Count(v));
      var z := TokensOfItems(braced, rest, e + |post| + 1, base + Count(k) + Count(v));
      Widen(x, base, at + |k.pre|, at + Length(k), base + |x|, at, colon);
      Widen(y, base + |x|, colon + 1 + |v.pre|, e, base + |x| + |y|, colon, e);
      NestedConcat(x, y, base, at, colon, e, base + |x| + |y|);
      PairNested(x + y, z, base, at, at, e, |post|, braced, rest);
  }

  lemma PairNested(x: seq<Token>, z: seq<Token>, base: nat, from: nat, at: nat, e: nat, gap: nat, braced: bool,
                   rest: Items)
    requires AreItems(braced, rest) && at <= from && at <= e && |z| == CountItems(rest)
    requires AllNested(x, base, from, e, base + |x|)
    requires AllNested(z, base + |x|, e + gap + 1, e + gap + 1 + LengthOfItems(braced, rest), base + |x| + |z|)
    ensures AllNested(x + z, base, at, e + gap + LengthOfRest(braced, rest), base + |x + z|)
  {
    hide AllNested;
    Widen(x, base, from, e, base + |x|, at, e);
    RestNested(braced, rest, z, base + |x|, e, e + gap);
    NestedConcat(x, z, base, at, e, e + gap + LengthOfRest(braced, rest), base + |x| + |z|);
  }

  lemma NoneNested(base: nat, at: int)
    ensures AllNested([], base, at, at, base)
  {
  }

  lemma Widen(run: seq<Token>, base: nat, start: int, end: int, last: int, start': int, end': int)
    requires AllNested(run, base, start, end, last) && start' <= start && end <= end'
    ensures AllNested(run, base, start', end', last)
  {
    forall k | 0 <= k < |run|
      ensures Nested(run, k, base, start', end', last)
    {
      assert Nested(run, k, base, start, end, last);
    }
  }

  lemma RestNested(braced: bool, rest: Items, z: seq<Token>, base: nat, e: nat, comma: nat)
    requires AreItems(braced, rest) && e <= comma && |z| == CountItems(rest)
    requires AllNested(z, base, comma + 1, comma + 1 + LengthOfItems(braced, rest), base + |z|)
    ensures AllNested(z, base, e, comma + LengthOfRest(braced, rest), base + |z|)
  {
    if !rest.Nil? {
      Widen(z, base, comma + 1, comma + 1 + LengthOfItems(braced, rest), base + |z|,
            e, comma + LengthOfRest(braced, rest));
    }
  }
}
