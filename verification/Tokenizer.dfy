/** Replacing tokens in a template, in one pass over the text and into a buffer that grows. */
module Tokenizer {
  import opened Wrappers

  const ERROR_BAD_ARGUMENTS := 160

  // What a token stands for.  The list that ends with a missing name is a sequence here.
  datatype Entity = Entity(name: string, replacement: string)

  predicate StartsWith(text: string, start: string)
  {
    |start| <= |text| && text[..|start|] == start
  }

  // The first entity, from number i on, whose name comes next, with the suffix after it.
  function FirstEntity(rest: string, entities: seq<Entity>, suffix: string, i: nat): (found: Option<Entity>)
    requires i <= |entities|
    ensures found.Some? ==> found.value in entities[i..] && StartsWith(rest, found.value.name + suffix)
    decreases |entities| - i
  {
    if i == |entities| then None
    else if StartsWith(rest, entities[i].name + suffix) then Some(entities[i])
    else FirstEntity(rest, entities, suffix, i + 1)
  }

  // It is the one with the smallest number of those that fit.
  lemma {:induction false} FirstThatFits(rest: string, entities: seq<Entity>, suffix: string, i: nat)
    requires i <= |entities|
    ensures match FirstEntity(rest, entities, suffix, i)
            case None => forall k :: i <= k < |entities| ==> !StartsWith(rest, entities[k].name + suffix)
            case Some(e) => exists k :: i <= k < |entities| && entities[k] == e && StartsWith(rest, entities[k].name + suffix)
                                        && forall j :: i <= j < k ==> !StartsWith(rest, entities[j].name + suffix)
    decreases |entities| - i
  {
    if i < |entities| && !StartsWith(rest, entities[i].name + suffix) {
      FirstThatFits(rest, entities, suffix, i + 1);
    }
  }

  // ---------- leftmost substitution in one pass ----------

  // A token is the prefix, the name of an entity and the suffix; a prefix without them stays as it is.
  function Substituted(text: string, entities: seq<Entity>, prefix: string, suffix: string): string
    requires prefix != ""
    decreases |text|
  {
    if text == "" then ""
    else if StartsWith(text, prefix) then
      var rest := text[|prefix|..];
      match FirstEntity(rest, entities, suffix, 0)
      case Some(e) => e.replacement + Substituted(rest[|e.name| + |suffix|..], entities, prefix, suffix)
      case None => prefix + Substituted(rest, entities, prefix, suffix)
    else [text[0]] + Substituted(text[1..], entities, prefix, suffix)
  }

  lemma PlainStep(text: string, entities: seq<Entity>, prefix: string, suffix: string)
    requires prefix != "" && text != "" && !StartsWith(text, prefix)
    ensures Substituted(text, entities, prefix, suffix) == [text[0]] + Substituted(text[1..], entities, prefix, suffix)
  {
  }

  lemma PrefixStep(rest: string, entities: seq<Entity>, prefix: string, suffix: string)
    requires prefix != ""
    ensures Substituted(prefix + rest, entities, prefix, suffix)
            == match FirstEntity(rest, entities, suffix, 0)
               case None => prefix + Substituted(rest, entities, prefix, suffix)
               case Some(e) => e.replacement + Substituted(rest[|e.name| + |suffix|..], entities, prefix, suffix)
  {
    var text := prefix + rest;
    assert text[..|prefix|] == prefix && text[|prefix|..] == rest;
  }

  // No prefix in the text is followed by a name and the suffix.
  ghost predicate NoTokens(text: string, entities: seq<Entity>, prefix: string, suffix: string)
  {
    forall k: nat, e :: k <= |text| && e in entities ==> !StartsWith(text[k..], prefix + e.name + suffix)
  }

  lemma NoTokensLater(text: string, n: nat, entities: seq<Entity>, prefix: string, suffix: string)
    requires n <= |text| && NoTokens(text, entities, prefix, suffix)
    ensures NoTokens(text[n..], entities, prefix, suffix)
  {
    hide StartsWith;
    forall k: nat, e | k <= |text[n..]| && e in entities
      ensures !StartsWith(text[n..][k..], prefix + e.name + suffix)
    {
      assert text[n..][k..] == text[n + k..];
    }
  }

  lemma TokenAtStart(prefix: string, rest: string, name: string, suffix: string)
    requires StartsWith(rest, name + suffix)
    ensures StartsWith((prefix + rest)[0..], prefix + name + suffix)
  {
    var more := rest[|name + suffix|..];
    assert rest == (name + suffix) + more;
    assert (prefix + rest)[0..] == (prefix + name + suffix) + more;
  }

  lemma TokenHere(prefix: string, rest: string, entities: seq<Entity>, suffix: string)
    requires NoTokens(prefix + rest, entities, prefix, suffix)
    ensures FirstEntity(rest, entities, suffix, 0) == None
  {
    hide StartsWith;
    match FirstEntity(rest, entities, suffix, 0)
    case None =>
    case Some(e) => TokenAtStart(prefix, rest, e.name, suffix);
  }

  // Such a text stays as it is.
  lemma {:induction false} NothingToReplace(text: string, entities: seq<Entity>, prefix: string, suffix: string)
    requires prefix != "" && NoTokens(text, entities, prefix, suffix)
    ensures Substituted(text, entities, prefix, suffix) == text
    decreases |text|
  {
    hide NoTokens, FirstEntity;
    if StartsWith(text, prefix) {
      var rest := text[|prefix|..];
      assert text == prefix + rest;
      TokenHere(prefix, rest, entities, suffix);
      PrefixStep(rest, entities, prefix, suffix);
      NoTokensLater(text, |prefix|, entities, prefix, suffix);
      NothingToReplace(rest, entities, prefix, suffix);
    } else if text != "" {
      PlainStep(text, entities, prefix, suffix);
      NoTokensLater(text, 1, entities, prefix, suffix);
      NothingToReplace(text[1..], entities, prefix, suffix);
    }
  }

  // The prefix does not occur before the first n characters are over.
  ghost predicate ClearUpto(text: string, n: nat, prefix: string)
  {
    n <= |text| && forall k: nat :: k < n ==> !StartsWith(text[k..], prefix)
  }

  lemma ClearRest(text: string, n: nat, prefix: string)
    requires n > 0 && ClearUpto(text, n, prefix)
    ensures !StartsWith(text, prefix) && ClearUpto(text[1..], n - 1, prefix)
  {
    hide StartsWith;
    assert text[0..] == text;
    forall k: nat | k < n - 1
      ensures !StartsWith(text[1..][k..], prefix)
    {
      assert text[1..][k..] == text[k + 1..];
    }
  }

  // The first token is replaced, and what comes after it is treated in the same way.
  lemma {:induction false} FirstTokenReplaced(before: string, e: Entity, after: string, entities: seq<Entity>, prefix: string, suffix: string)
    requires prefix != "" && FirstEntity(e.name + suffix + after, entities, suffix, 0) == Some(e)
    requires ClearUpto(before + (prefix + (e.name + suffix + after)), |before|, prefix)
    ensures Substituted(before + (prefix + (e.name + suffix + after)), entities, prefix, suffix)
            == before + e.replacement + Substituted(after, entities, prefix, suffix)
    decreases |before|
  {
    hide FirstEntity, StartsWith, Substituted, ClearUpto;
    var rest := e.name + suffix + after;
    var text := before + (prefix + rest);
    if before == "" {
      PrefixStep(rest, entities, prefix, suffix);
      assert text == prefix + rest && rest[|e.name| + |suffix|..] == after;
      assert before + e.replacement == e.replacement;
    } else {
      var less := before[1..];
      assert text[1..] == less + (prefix + rest) && text[0] == before[0];
      ClearRest(text, |before|, prefix);
      PlainStep(text, entities, prefix, suffix);
      FirstTokenReplaced(less, e, after, entities, prefix, suffix);
      assert before == [before[0]] + less;
      Joined(before[0], less, e.replacement, Substituted(after, entities, prefix, suffix));
    }
  }

  lemma Joined(c: char, less: string, replacement: string, more: string)
    ensures [c] + (less + replacement + more) == [c] + less + replacement + more
  {
  }

  // The source gives up where no name fits between the prefix and the suffix any more, and right
  // after a token, or a prefix, or at the start of the text, also where nothing fits but an empty name.
  predicate TooShort(text: string, prefix: string, suffix: string, first: bool)
  {
    |text| < |prefix| + |suffix| || (first && |text| == |prefix| + |suffix|)
  }

  function Tokenized(text: string, entities: seq<Entity>, prefix: string, suffix: string, first: bool): string
    requires prefix != ""
    decreases |text|
  {
    if text == "" || TooShort(text, prefix, suffix, first) then text
    else if StartsWith(text, prefix) then
      var rest := text[|prefix|..];
      match FirstEntity(rest, entities, suffix, 0)
      case Some(e) => e.replacement + Tokenized(rest[|e.name| + |suffix|..], entities, prefix, suffix, true)
      case None => prefix + Tokenized(rest, entities, prefix, suffix, true)
    else [text[0]] + Tokenized(text[1..], entities, prefix, suffix, false)
  }

  // No entity takes the bare prefix and suffix for its token, or it stands for just that.
  predicate BareTokenKept(entities: seq<Entity>, prefix: string, suffix: string)
  {
    match FirstEntity(suffix, entities, suffix, 0)
    case None => true
    case Some(e) => e.replacement == prefix + suffix
  }

  // What is left of a text that is only prefix and suffix.
  lemma BareToken(entities: seq<Entity>, prefix: string, suffix: string)
    requires prefix != "" && suffix != ""
    ensures Tokenized(prefix + suffix, entities, prefix, suffix, true) == prefix + suffix
    ensures Substituted(prefix + suffix, entities, prefix, suffix)
            == match FirstEntity(suffix, entities, suffix, 0)
               case None => prefix + Substituted(suffix, entities, prefix, suffix)
               case Some(e) => e.replacement
  {
    var text := prefix + suffix;
    assert text[..|prefix|] == prefix && text[|prefix|..] == suffix;
    match FirstEntity(suffix, entities, suffix, 0)
    case None =>
    case Some(e) => assert e.name == "" && suffix[|e.name| + |suffix|..] == "";
  }

  lemma {:induction false} ShortStaysAsItIs(text: string, entities: seq<Entity>, prefix: string, suffix: string)
    requires prefix != "" && suffix != "" && |text| <= |prefix| + |suffix|
    requires |text| == |prefix| + |suffix| ==> BareTokenKept(entities, prefix, suffix)
    ensures Substituted(text, entities, prefix, suffix) == text
    decreases |text|
  {
    if text != "" {
      if StartsWith(text, prefix) {
        var rest := text[|prefix|..];
        assert text == prefix + rest;
        match FirstEntity(rest, entities, suffix, 0)
        case Some(e) =>
          assert |rest| >= |e.name + suffix|;
          assert rest == rest[..|suffix|] == suffix;
          BareToken(entities, prefix, suffix);
        case None => ShortStaysAsItIs(rest, entities, prefix, suffix);
      } else {
        ShortStaysAsItIs(text[1..], entities, prefix, suffix);
      }
    }
  }

  lemma {:induction false} GivingUpIsHarmless(text: string, entities: seq<Entity>, prefix: string, suffix: string, first: bool)
    requires prefix != "" && suffix != "" && BareTokenKept(entities, prefix, suffix)
    ensures Tokenized(text, entities, prefix, suffix, first) == Substituted(text, entities, prefix, suffix)
    decreases |text|
  {
    hide FirstEntity, BareTokenKept;
    if text == "" || TooShort(text, prefix, suffix, first) {
      ShortStaysAsItIs(text, entities, prefix, suffix);
    } else if StartsWith(text, prefix) {
      hide StartsWith;
      var rest := text[|prefix|..];
      match FirstEntity(rest, entities, suffix, 0)
      case Some(e) =>
        var after := rest[|e.name| + |suffix|..];
        GivingUpIsHarmless(after, entities, prefix, suffix, true);
        assert Substituted(text, entities, prefix, suffix) == e.replacement + Substituted(after, entities, prefix, suffix);
      case None => GivingUpIsHarmless(rest, entities, prefix, suffix, true);
    } else {
      GivingUpIsHarmless(text[1..], entities, prefix, suffix, false);
    }
  }

  // The source substitutes in every text exactly when it makes no difference that it gives up early:
  // when no entity has an empty name, or the first that has one stands for its own token.
  lemma TokenizedIsSubstituted(entities: seq<Entity>, prefix: string, suffix: string)
    requires prefix != "" && suffix != ""
    ensures (forall text: string :: Tokenized(text, entities, prefix, suffix, true) == Substituted(text, entities, prefix, suffix))
            <==> BareTokenKept(entities, prefix, suffix)
  {
    if BareTokenKept(entities, prefix, suffix) {
      forall text: string
        ensures Tokenized(text, entities, prefix, suffix, true) == Substituted(text, entities, prefix, suffix)
      {
        GivingUpIsHarmless(text, entities, prefix, suffix, true);
      }
    } else {
      BareToken(entities, prefix, suffix);
    }
  }

  // ---------- templates ----------

  // Text as its author sees it: plain pieces and tokens.
  datatype Piece = Plain(text: string) | Token(entity: Entity)

  function Rendered(pieces: seq<Piece>, prefix: string, suffix: string): string
  {
    if pieces == [] then ""
    else (match pieces[0]
          case Plain(text) => text
          case Token(e) => prefix + e.name + suffix) + Rendered(pieces[1..], prefix, suffix)
  }

  function Expanded(pieces: seq<Piece>): string
  {
    if pieces == [] then ""
    else (match pieces[0]
          case Plain(text) => text
          case Token(e) => e.replacement) + Expanded(pieces[1..])
  }

  // Plain text keeps clear of the prefix, names keep clear of the suffix, and no name is used twice.
  ghost predicate WellFormed(pieces: seq<Piece>, entities: seq<Entity>, prefix: string, suffix: string)
    requires prefix != "" && suffix != ""
  {
    && (forall p :: p in pieces ==> match p case Plain(text) => prefix[0] !in text case Token(e) => e in entities)
    && (forall e :: e in entities ==> e.name != "" && suffix[0] !in e.name)
    && (forall i, j :: 0 <= i < j < |entities| ==> entities[i].name != entities[j].name)
  }

  lemma {:induction false} PlainIsKept(plain: string, after: string, entities: seq<Entity>, prefix: string, suffix: string)
    requires prefix != "" && prefix[0] !in plain
    ensures Substituted(plain + after, entities, prefix, suffix) == plain + Substituted(after, entities, prefix, suffix)
    decreases |plain|
  {
    hide FirstEntity;
    var text := plain + after;
    if plain == "" {
      assert text == after;
    } else {
      PlainIsKept(plain[1..], after, entities, prefix, suffix);
      assert text[1..] == plain[1..] + after && text[0] == plain[0];
      assert !StartsWith(text, prefix);
    }
  }

  // A name is told from the others by what comes before the suffix.
  lemma SameName(name: string, other: string, after: string, suffix: string)
    requires suffix != "" && suffix[0] !in name && suffix[0] !in other
    requires StartsWith(name + suffix + after, other + suffix)
    ensures other == name
  {
    var text := name + suffix + after;
    assert text[|name|] == suffix[0];
    assert text[..|other + suffix|][|other|] == (other + suffix)[|other|] == suffix[0];
    assert |other| == |name|;
    assert text[..|other|] == text[..|other + suffix|][..|other|];
    assert (other + suffix)[..|other|] == other;
    assert text[..|name|] == name;
  }

  lemma {:induction false} FindsEntity(e: Entity, after: string, entities: seq<Entity>, suffix: string, i: nat, at: nat)
    requires i <= at < |entities| && entities[at] == e && suffix != ""
    requires forall x :: x in entities ==> suffix[0] !in x.name
    requires forall i, j :: 0 <= i < j < |entities| ==> entities[i].name != entities[j].name
    ensures FirstEntity(e.name + suffix + after, entities, suffix, i) == Some(e)
    decreases at - i
  {
    var text := e.name + suffix + after;
    if i < at {
      if StartsWith(text, entities[i].name + suffix) {
        SameName(e.name, entities[i].name, after, suffix);
      }
      FindsEntity(e, after, entities, suffix, i + 1, at);
    } else {
      assert text[..|e.name + suffix|] == e.name + suffix;
    }
  }

  // Tokenizing a rendered template gives its expansion.
  lemma TemplateRoundTrip(pieces: seq<Piece>, entities: seq<Entity>, prefix: string, suffix: string)
    requires prefix != "" && suffix != "" && WellFormed(pieces, entities, prefix, suffix)
    ensures Tokenized(Rendered(pieces, prefix, suffix), entities, prefix, suffix, true) == Expanded(pieces)
  {
    GivingUpIsHarmless(Rendered(pieces, prefix, suffix), entities, prefix, suffix, true);
    RenderedIsExpanded(pieces, entities, prefix, suffix);
  }

  lemma {:induction false} RenderedIsExpanded(pieces: seq<Piece>, entities: seq<Entity>, prefix: string, suffix: string)
    requires prefix != "" && suffix != "" && WellFormed(pieces, entities, prefix, suffix)
    ensures Substituted(Rendered(pieces, prefix, suffix), entities, prefix, suffix) == Expanded(pieces)
  {
    if pieces != [] {
      var after := Rendered(pieces[1..], prefix, suffix);
      assert pieces[0] in pieces && forall p :: p in pieces[1..] ==> p in pieces;
      RenderedIsExpanded(pieces[1..], entities, prefix, suffix);
      match pieces[0]
      case Plain(text) => PlainIsKept(text, after, entities, prefix, suffix);
      case Token(e) => TokenIsReplaced(e, after, entities, prefix, suffix);
    }
  }

  lemma TokenIsReplaced(e: Entity, after: string, entities: seq<Entity>, prefix: string, suffix: string)
    requires prefix != "" && suffix != "" && e in entities
    requires forall x :: x in entities ==> suffix[0] !in x.name
    requires forall i, j :: 0 <= i < j < |entities| ==> entities[i].name != entities[j].name
    ensures Substituted(prefix + e.name + suffix + after, entities, prefix, suffix)
            == e.replacement + Substituted(after, entities, prefix, suffix)
  {
    var text, rest := prefix + e.name + suffix + after, e.name + suffix + after;
    assert text[..|prefix|] == prefix && text[|prefix|..] == rest;
    var at :| 0 <= at < |entities| && entities[at] == e;
    FindsEntity(e, after, entities, suffix, 0, at);
    assert rest[|e.name| + |suffix|..] == after;
  }

  // ---------- the buffer ----------

  function GetDestSize(required: nat): nat
  {
    required + 1024
  }

  // Appends to the buffer, which is moved to a larger place when there would be no room for one more
  // character after it.
  method GrowStrcpy(dst: array<char>, pos: nat, text: string) returns (grown: array<char>, newPos: nat)
    requires pos < dst.Length
    modifies dst
    ensures grown == dst || fresh(grown)
    ensures newPos == pos + |text| < grown.Length
    ensures grown[..newPos] == old(dst[..pos]) + text
  {
    grown := dst;
    if pos + |text| >= dst.Length {
      grown := new char[GetDestSize(pos + |text|)](i requires 0 <= i reads dst => if i < dst.Length then dst[i] else '\0');
      assert grown[..pos] == dst[..pos];
    }
    var count := if |text| < grown.Length - pos - 1 then |text| else grown.Length - pos - 1;
    forall i | 0 <= i < count {
      grown[pos + i] := text[i];
    }
    newPos := pos + |text|;
    assert grown[..newPos][..pos] == old(dst[..pos]);
  }

  // ---------- the loops ----------

  // Where no prefix starts, one character is passed over.
  lemma PassOver(text: string, m: nat, entities: seq<Entity>, prefix: string, suffix: string)
    requires prefix != "" && m < |text| && !TooShort(text[m..], prefix, suffix, m == 0) && !StartsWith(text[m..], prefix)
    ensures text[..m] + Tokenized(text[m..], entities, prefix, suffix, m == 0)
            == text[..m + 1] + Tokenized(text[m + 1..], entities, prefix, suffix, false)
  {
    var after := Tokenized(text[m + 1..], entities, prefix, suffix, false);
    assert text[m..][1..] == text[m + 1..];
    assert Tokenized(text[m..], entities, prefix, suffix, m == 0) == [text[m]] + after;
    assert text[..m + 1] == text[..m] + [text[m]];
  }

  // Where a prefix starts, it is replaced together with a name and the suffix, or kept.
  lemma Replace(text: string, entities: seq<Entity>, prefix: string, suffix: string, first: bool)
    requires prefix != "" && !TooShort(text, prefix, suffix, first) && StartsWith(text, prefix)
    ensures var rest := text[|prefix|..];
            match FirstEntity(rest, entities, suffix, 0)
            case Some(e) =>
              && |e.name| + |suffix| <= |rest|
              && Tokenized(text, entities, prefix, suffix, first)
                 == e.replacement + Tokenized(rest[|e.name| + |suffix|..], entities, prefix, suffix, true)
            case None => Tokenized(text, entities, prefix, suffix, first) == prefix + Tokenized(rest, entities, prefix, suffix, true)
  {
  }

  lemma KeepRest(text: string, entities: seq<Entity>, prefix: string, suffix: string, first: bool)
    requires prefix != "" && TooShort(text, prefix, suffix, first)
    ensures Tokenized(text, entities, prefix, suffix, first) == text
  {
  }

  // Where the next prefix starts that may begin a token; None if there is none.
  method FindPrefix(text: string, entities: seq<Entity>, prefix: string, suffix: string) returns (at: Option<nat>)
    requires prefix != "" && |text| > |prefix| + |suffix|
    ensures match at
            case None => Tokenized(text, entities, prefix, suffix, true) == text
            case Some(m) =>
              && m + |prefix| + |suffix| <= |text| && StartsWith(text[m..], prefix) && !TooShort(text[m..], prefix, suffix, m == 0)
              && Tokenized(text, entities, prefix, suffix, true) == text[..m] + Tokenized(text[m..], entities, prefix, suffix, m == 0)
  {
    hide Tokenized;
    var m := 0;
    assert text[0..] == text;
    while !StartsWith(text[m..], prefix)
      invariant m + |prefix| + |suffix| <= |text| && !TooShort(text[m..], prefix, suffix, m == 0)
      invariant Tokenized(text, entities, prefix, suffix, true) == text[..m] + Tokenized(text[m..], entities, prefix, suffix, m == 0)
      decreases |text| - m
    {
      PassOver(text, m, entities, prefix, suffix);
      m := m + 1;
      if m + |prefix| + |suffix| > |text| {
        KeepRest(text[m..], entities, prefix, suffix, false);
        assert text == text[..m] + text[m..];
        return None;
      }
    }
    return Some(m);
  }

  // Tries the entities in turn on what follows a prefix.
  method FindEntity(rest: string, entities: seq<Entity>, suffix: string) returns (found: Option<Entity>)
    ensures found == FirstEntity(rest, entities, suffix, 0)
  {
    for i := 0 to |entities|
      invariant FirstEntity(rest, entities, suffix, 0) == FirstEntity(rest, entities, suffix, i)
    {
      var name := entities[i].name;
      if |rest| < |name| + |suffix| {
        continue;
      }
      assert rest[..|name + suffix|] == rest[..|name|] + rest[|name|..][..|suffix|];
      if !StartsWith(rest[|name|..], suffix) {
        assert rest[..|name + suffix|][|name|..] == rest[|name|..][..|suffix|];
        assert (name + suffix)[|name|..] == suffix;
        continue;
      }
      if StartsWith(rest, name) {
        return Some(entities[i]);
      }
      assert rest[..|name + suffix|][..|name|] == rest[..|name|];
      assert (name + suffix)[..|name|] == name;
    }
    return None;
  }

  // Replaces the tokens of a text.  Returns a negative number for bad arguments, 0 for an empty text,
  // and otherwise the number of characters written, which a null character follows.
  method TokenizeString(src: Option<string>, srcCount: int, dstGiven: bool, tokenEntities: Option<seq<Entity>>,
                        tokPrefix: Option<string>, tokSuffix: Option<string>)
    returns (size: int, dst: array?<char>)
    requires src.Some? ==> srcCount <= |src.value|
    ensures var bad := src.None? || !dstGiven || tokenEntities.None? || srcCount == 0 || tokPrefix.None? || tokSuffix.None?
                       || tokPrefix.value == "" || tokSuffix.value == "";
            && (bad ==> size == -160 && dst == null)
            && (!bad ==>
                  var text := if srcCount < 0 then src.value else src.value[..srcCount];
                  if text == "" then size == 0 && dst == null
                  else
                    && dst != null && fresh(dst) && 0 <= size < dst.Length && dst[size] == '\0'
                    && dst[..size] == Tokenized(text, tokenEntities.value, tokPrefix.value, tokSuffix.value, true))
  {
    if src.None? || !dstGiven || tokenEntities.None? || srcCount == 0 || tokPrefix.None? || tokSuffix.None? {
      return -ERROR_BAD_ARGUMENTS, null;
    }
    if tokPrefix.value == "" || tokSuffix.value == "" {
      return -ERROR_BAD_ARGUMENTS, null;
    }
    var text := if srcCount < 0 then src.value else src.value[..srcCount];
    if text == "" {
      return 0, null;
    }
    size, dst := TokenizeText(text, tokenEntities.value, tokPrefix.value, tokSuffix.value);
  }

  // Copies the text before a prefix, and what takes the place of the prefix and what follows it.
  method ReplaceAt(text: string, m: nat, entities: seq<Entity>, prefix: string, suffix: string, dst0: array<char>, pos0: nat)
    returns (src: string, dst: array<char>, dstPos: nat)
    requires prefix != "" && pos0 < dst0.Length
    requires m <= |text| && StartsWith(text[m..], prefix) && !TooShort(text[m..], prefix, suffix, m == 0)
    modifies dst0
    ensures (dst == dst0 || fresh(dst)) && dstPos < dst.Length && |src| < |text|
    ensures old(dst0[..pos0]) + (text[..m] + Tokenized(text[m..], entities, prefix, suffix, m == 0))
            == dst[..dstPos] + Tokenized(src, entities, prefix, suffix, true)
  {
    hide Tokenized, FirstEntity;
    ghost var done := dst0[..pos0];
    Replace(text[m..], entities, prefix, suffix, m == 0);
    dst, dstPos := GrowStrcpy(dst0, pos0, text[..m]);
    var rest := text[m..][|prefix|..];
    var found := FindEntity(rest, entities, suffix);
    match found {
      case Some(e) =>
        dst, dstPos := GrowStrcpy(dst, dstPos, e.replacement);
        src := rest[|e.name| + |suffix|..];
        assert dst[..dstPos] == done + text[..m] + e.replacement;
      case None =>
        dst, dstPos := GrowStrcpy(dst, dstPos, prefix);
        src := rest;
        assert dst[..dstPos] == done + text[..m] + prefix;
    }
  }

  method TokenizeText(text: string, entities: seq<Entity>, prefix: string, suffix: string) returns (dstPos: nat, dst: array<char>)
    requires prefix != "" && suffix != ""
    ensures fresh(dst) && dstPos < dst.Length && dst[dstPos] == '\0'
    ensures dst[..dstPos] == Tokenized(text, entities, prefix, suffix, true)
  {
    hide Tokenized, FirstEntity;
    dst := new char[GetDestSize(|text|)](_ => '\0');
    dstPos := 0;
    var src := text;
    while |src| > |prefix| + |suffix|
      invariant fresh(dst) && dstPos < dst.Length
      invariant Tokenized(text, entities, prefix, suffix, true) == dst[..dstPos] + Tokenized(src, entities, prefix, suffix, true)
      decreases |src|
    {
      var at := FindPrefix(src, entities, prefix, suffix);
      if at.None? {
        break;
      }
      src, dst, dstPos := ReplaceAt(src, at.value, entities, prefix, suffix, dst, dstPos);
    }
    if |src| <= |prefix| + |suffix| {
      KeepRest(src, entities, prefix, suffix, true);
    }
    if |src| > 0 {
      dst, dstPos := GrowStrcpy(dst, dstPos, src);
    }
    dst[dstPos] := '\0';
  }
}
