/** Replacing library placeholders in bytecode by addresses (tools/deployment_tool/Contract.js,
    _linkBytecode, _linkBytecodeReplacement and _checkFullyLinked). */
module Linking {
  import opened Results
  import opened Sorting

  const PLACEHOLDER_LENGTH := 40

  function Underscores(n: nat): string {
    seq(n, _ => '_')
  }

  /** Two underscores, the name, and underscores up to forty characters; longer names are cut. */
  function Placeholder(name: string): (p: string)
    ensures |p| == PLACEHOLDER_LENGTH
  {
    ("__" + name + Underscores(38))[..PLACEHOLDER_LENGTH]
  }

  /** Global replacement: leftmost occurrences first, searching on behind each one. */
  function ReplaceAll(s: string, pattern: string, replacement: string): string
    requires pattern != ""
    decreases |s|
  {
    if s == "" then ""
    else if pattern <= s then replacement + ReplaceAll(s[|pattern|..], pattern, replacement)
    else [s[0]] + ReplaceAll(s[1..], pattern, replacement)
  }

  /** `replace('0x', '')`: drops the first occurrence. */
  function WithoutPrefix(address: string): (text: string)
    ensures "0x" <= address ==> "0x" + text == address
  {
    if address == "" then ""
    else if "0x" <= address then address[2..]
    else [address[0]] + WithoutPrefix(address[1..])
  }

  predicate PrefixAt(address: string, k: nat) {
    k + 1 < |address| && address[k] == '0' && address[k + 1] == 'x'
  }

  /** Wherever it stands, and nothing else; without one the text stays as it is. */
  lemma {:induction false} FirstPrefixIsDropped(address: string, k: nat)
    requires k <= |address| && forall i | 0 <= i < k :: !PrefixAt(address, i)
    ensures PrefixAt(address, k) ==> WithoutPrefix(address) == address[..k] + address[k + 2..]
    ensures k == |address| ==> WithoutPrefix(address) == address
    decreases k
  {
    if k > 0 {
      assert !PrefixAt(address, 0);
      assert forall i | 0 <= i < k - 1 :: PrefixAt(address[1..], i) == PrefixAt(address, i + 1);
      FirstPrefixIsDropped(address[1..], k - 1);
      assert PrefixAt(address, k) ==> address[1..][k + 1..] == address[k + 2..];
      assert address[..k] == [address[0]] + address[1..][..k - 1];
    }
  }

  /** A contract to link to: its name and its address. */
  datatype Link = Link(name: string, address: string)

  function LinkOne(bytecode: string, link: Link): string {
    ReplaceAll(bytecode, Placeholder(link.name), WithoutPrefix(link.address))
  }

  function LinkAll(bytecode: string, links: seq<Link>): string
    decreases |links|
  {
    if links == [] then bytecode else LinkAll(LinkOne(bytecode, links[0]), links[1..])
  }

  lemma {:induction false} LinkAllStep(bytecode: string, links: seq<Link>, i: nat)
    requires i < |links|
    ensures LinkAll(bytecode, links[..i + 1]) == LinkOne(LinkAll(bytecode, links[..i]), links[i])
    decreases i
  {
    if i == 0 {
      assert links[..1][1..] == [];
    } else {
      LinkAllStep(LinkOne(bytecode, links[0]), links[1..], i - 1);
      assert links[1..][..i] == links[..i + 1][1..] && links[1..][..i - 1] == links[..i][1..];
    }
  }

  /** The same for the first n links, one after the other. */
  function LinkFirstOnes(bytecode: string, links: seq<Link>, n: nat): string
    requires n <= |links|
  {
    if n == 0 then bytecode else LinkOne(LinkFirstOnes(bytecode, links, n - 1), links[n - 1])
  }

  lemma {:induction false} LinkFirstOnesIsLinkAll(bytecode: string, links: seq<Link>, n: nat)
    requires n <= |links|
    ensures LinkFirstOnes(bytecode, links, n) == LinkAll(bytecode, links[..n])
  {
    if n > 0 {
      LinkFirstOnesIsLinkAll(bytecode, links, n - 1);
      LinkAllStep(bytecode, links, n - 1);
    }
  }

  predicate FullyLinked(bytecode: string) {
    bytecode != "" && '_' !in bytecode
  }

  // ---------- Bytecode as it is compiled ----------

  /** The characters of code: hexadecimal digits, and the x of the 0x in front. */
  predicate CodeChar(c: char) {
    '0' <= c <= '9' || 'a' <= c <= 'f' || 'A' <= c <= 'F' || c == 'x'
  }

  predicate CodeText(s: string) {
    forall i | 0 <= i < |s| :: CodeChar(s[i])
  }

  /** Bytecode is single code characters, unlinked placeholders and linked addresses. */
  datatype Token = Code(c: char) | Hole(name: string) | Linked(digits: string)

  /** Bytecode as it is compiled: code characters and addresses apart from placeholders. */
  predicate Compiled(tokens: seq<Token>) {
    forall i | 0 <= i < |tokens| :: match tokens[i]
      case Code(c) => CodeChar(c)
      case Hole(_) => true
      case Linked(digits) => |digits| == PLACEHOLDER_LENGTH && CodeText(digits)
  }

  /** A contract name whose placeholder is not found anywhere but where it stands: it does not begin
      with an underscore, has no two of them in a row, and does not fill the placeholder with code. */
  predicate PlainName(name: string) {
    name != "" && name[0] != '_' && SingleUnderscores(name) && !LikeCode(name)
  }

  predicate SingleUnderscores(name: string) {
    forall i | 0 <= i < |name| - 1 && name[i] == '_' :: name[i + 1] != '_'
  }

  /** Behind its first two underscores the placeholder is code and at most two underscores. */
  predicate LikeCode(name: string) {
    exists n | 36 <= n <= 38 :: LikeCodeUpTo(name, n)
  }

  predicate LikeCodeUpTo(name: string, n: nat)
    requires n <= 38
  {
    CodeText(Placeholder(name)[2..2 + n]) && forall i | 2 + n <= i < PLACEHOLDER_LENGTH :: Placeholder(name)[i] == '_'
  }

  predicate WellFormed(token: Token) {
    match token
    case Code(c) => CodeChar(c)
    case Hole(name) => PlainName(name)
    case Linked(digits) => |digits| == PLACEHOLDER_LENGTH && CodeText(digits)
  }

  predicate AllWellFormed(tokens: seq<Token>) {
    forall i | 0 <= i < |tokens| :: WellFormed(tokens[i])
  }

  function Text(token: Token): string {
    match token
    case Code(c) => [c]
    case Hole(name) => Placeholder(name)
    case Linked(digits) => digits
  }

  function Render(tokens: seq<Token>): string {
    if tokens == [] then "" else Text(tokens[0]) + Render(tokens[1..])
  }

  predicate PlainAddress(address: string) {
    |WithoutPrefix(address)| == PLACEHOLDER_LENGTH && CodeText(WithoutPrefix(address))
  }

  predicate PlainLink(link: Link) {
    PlainName(link.name) && PlainAddress(link.address)
  }

  predicate PlainLinks(links: seq<Link>) {
    forall i | 0 <= i < |links| :: PlainLink(links[i])
  }

  function FillToken(token: Token, link: Link): Token {
    if token.Hole? && Placeholder(token.name) == Placeholder(link.name) then Linked(WithoutPrefix(link.address))
    else token
  }

  function Fill(tokens: seq<Token>, link: Link): seq<Token> {
    seq(|tokens|, i requires 0 <= i < |tokens| => FillToken(tokens[i], link))
  }

  // ---------- Placeholders only match where they stand ----------

  lemma PlaceholderShape(name: string)
    ensures forall i | 0 <= i < PLACEHOLDER_LENGTH ::
              Placeholder(name)[i] == if i < 2 || |name| + 2 <= i then '_' else name[i - 2]
    ensures PlainName(name) ==> Placeholder(name)[2] != '_'
  {
  }

  /** Behind two neighbouring underscores in a plain name's placeholder there is nothing else. */
  lemma UnderscoresAtTheEnd(name: string, i: nat, j: nat)
    requires PlainName(name) && 2 <= i < j < PLACEHOLDER_LENGTH && i + 1 < PLACEHOLDER_LENGTH
    requires Placeholder(name)[i] == '_' && Placeholder(name)[i + 1] == '_'
    ensures Placeholder(name)[j] == '_'
  {
    PlaceholderShape(name);
  }

  /** In rendered bytecode the first character that is not a code character is an underscore. */
  lemma {:induction false} CodeUpToUnderscore(tokens: seq<Token>, t: nat)
    requires AllWellFormed(tokens) && t < |Render(tokens)|
    ensures CodeChar(Render(tokens)[t]) || exists i | 0 <= i <= t :: Render(tokens)[i] == '_'
  {
    var first := Text(tokens[0]);
    if tokens[0].Hole? {
      PlaceholderShape(tokens[0].name);
      assert Render(tokens)[0] == '_';
    } else if t < |first| {
      assert Render(tokens)[t] == first[t];
    } else {
      var rest := Render(tokens[1..]);
      CodeUpToUnderscore(tokens[1..], t - |first|);
      assert Render(tokens)[t] == rest[t - |first|];
      if i :| 0 <= i <= t - |first| && rest[i] == '_' {
        assert Render(tokens)[|first| + i] == '_';
      }
    }
  }

  /** Where a placeholder has its first underscore behind the first two. */
  lemma {:induction false} UnderscoreBehind(p: string, from: nat) returns (t: nat)
    requires from <= |p|
    ensures from <= t <= |p| && (forall i | from <= i < t :: p[i] != '_') && (t < |p| ==> p[t] == '_')
    decreases |p| - from
  {
    t := from;
    if from < |p| && p[from] != '_' {
      t := UnderscoreBehind(p, from + 1);
    }
  }

  lemma NotInCode(name: string, tokens: seq<Token>)
    requires PlainName(name) && AllWellFormed(tokens)
    ensures !(Placeholder(name)[2..] <= Render(tokens))
  {
    var p, s := Placeholder(name), Render(tokens);
    if p[2..] <= s {
      assert forall i | 2 <= i < 40 :: p[i] == p[2..][i - 2] == s[i - 2];
      var t := UnderscoreBehind(p, 2);
      forall i | 2 <= i < t
        ensures CodeChar(p[i])
      {
        CodeUpToUnderscore(tokens, i - 2);
      }
      assert CodeText(p[2..t]);
      if t < PLACEHOLDER_LENGTH {
        FirstUnderscore(tokens, t - 2);
        if t + 1 < PLACEHOLDER_LENGTH {
          assert p[t + 1] == s[t - 1] == '_';
          if t + 2 < PLACEHOLDER_LENGTH {
            UnderscoresAtTheEnd(name, t, t + 2);
            assert false;
          }
        }
      }
      assert LikeCodeUpTo(name, t - 2);
      assert false;
    }
  }

  /** The first underscore in rendered bytecode begins a placeholder. */
  lemma {:induction false} FirstUnderscore(tokens: seq<Token>, t: nat)
    requires AllWellFormed(tokens) && t < |Render(tokens)|
    requires Render(tokens)[t] == '_' && forall k | 0 <= k < t :: Render(tokens)[k] != '_'
    ensures t + 2 < |Render(tokens)| && Render(tokens)[t + 1] == '_' && Render(tokens)[t + 2] != '_'
  {
    var first, rest := Text(tokens[0]), Render(tokens[1..]);
    var all := Render(tokens);
    assert all == first + rest;
    if tokens[0].Hole? {
      PlaceholderShape(tokens[0].name);
      assert all[0] == first[0] && all[1] == first[1] && all[2] == first[2];
    } else {
      NoUnderscoreInCode(tokens[0]);
      assert forall k | 0 <= k < |first| :: all[k] == first[k];
      forall k | 0 <= k < t - |first|
        ensures rest[k] != '_'
      {
        assert all[|first| + k] == rest[k];
      }
      FirstUnderscore(tokens[1..], t - |first|);
    }
  }

  lemma NoUnderscoreInCode(token: Token)
    requires WellFormed(token) && !token.Hole?
    ensures forall k | 0 <= k < |Text(token)| :: Text(token)[k] != '_'
  {
  }

  lemma UnderscoresComeInPairs(tokens: seq<Token>)
    requires AllWellFormed(tokens) && 2 <= |Render(tokens)|
    ensures Render(tokens)[0] == '_' ==> Render(tokens)[1] == '_'
  {
    assert Render(tokens)[0] == Text(tokens[0])[0];
    if tokens[0].Hole? {
      PlaceholderShape(tokens[0].name);
    }
  }

  lemma PrefixTail(p: string, s: string, n: nat)
    requires n <= |p| && n <= |s|
    ensures p <= s ==> p[n..] <= s[n..]
  {
    assert p <= s ==> forall i | n <= i < |p| :: p[i] == s[i];
  }

  /** Inside another placeholder, or across its end, there is no occurrence. */
  lemma NoOverlap(name: string, other: string, rest: seq<Token>, k: nat)
    requires PlainName(name) && PlainName(other) && AllWellFormed(rest)
    requires k < PLACEHOLDER_LENGTH && (k == 0 ==> Placeholder(name) != Placeholder(other))
    ensures !(Placeholder(name) <= (Placeholder(other) + Render(rest))[k..])
  {
    PlaceholderShape(name);
    PlaceholderShape(other);
    var p, q := Placeholder(name), Placeholder(other);
    var s := (q + Render(rest))[k..];
    if k == 0 {
      assert s[..PLACEHOLDER_LENGTH] == q;
    } else if k == 1 {
      assert s[1] == q[2] != p[1];
    } else if k < 38 {
      assert s[0] == q[k] && s[1] == q[k + 1] && s[2] == q[k + 2];
      if q[k] == '_' && q[k + 1] == '_' {
        UnderscoresAtTheEnd(other, k, k + 2);
        assert s[2] != p[2];
      }
    } else if k == 38 {
      NotInCode(name, rest);
      assert s[2..] == Render(rest);
      PrefixTail(p, s, 2);
    } else if 3 <= |s| {
      assert s[1..] == Render(rest);
      UnderscoresComeInPairs(rest);
      assert s[1] != p[1] || s[2] != p[2];
    }
  }

  lemma {:induction false} SkipUnmatched(s: string, n: nat, pattern: string, replacement: string)
    requires pattern != "" && n <= |s|
    requires forall k | 0 <= k < n :: !(pattern <= s[k..])
    ensures ReplaceAll(s, pattern, replacement) == s[..n] + ReplaceAll(s[n..], pattern, replacement)
    decreases n
  {
    if n > 0 {
      assert s[0..] == s;
      forall k | 0 <= k < n - 1
        ensures !(pattern <= s[1..][k..])
      {
        assert s[1..][k..] == s[k + 1..];
      }
      SkipUnmatched(s[1..], n - 1, pattern, replacement);
      assert s[1..][n - 1..] == s[n..];
      assert s[..n] == [s[0]] + s[1..][..n - 1];
    }
  }

  // ---------- Linking one name ----------

  /** No occurrence of the name's placeholder starts inside the placeholder of another name. */
  predicate StandsAlone(tokens: seq<Token>, name: string)
    requires tokens != []
  {
    tokens[0].Hole? && Placeholder(tokens[0].name) != Placeholder(name) ==>
      forall k | 0 < k < PLACEHOLDER_LENGTH :: !(Placeholder(name) <= Render(tokens)[k..])
  }

  predicate Isolated(tokens: seq<Token>, name: string) {
    tokens == [] || (StandsAlone(tokens, name) && Isolated(tokens[1..], name))
  }

  /** The first of the occurrences inside. */
  lemma {:induction false} FirstInside(pattern: string, s: string, low: nat, high: nat) returns (k: nat)
    requires low <= high <= |s| && pattern <= s[high..]
    ensures low <= k <= high && pattern <= s[k..]
    ensures forall j | low <= j < k :: !(pattern <= s[j..])
    decreases high - low
  {
    k := low;
    if !(pattern <= s[low..]) {
      k := FirstInside(pattern, s, low + 1, high);
    }
  }

  lemma RenderFill(tokens: seq<Token>, link: Link)
    requires tokens != []
    ensures Render(Fill(tokens, link)) == Text(FillToken(tokens[0], link)) + Render(Fill(tokens[1..], link))
  {
    assert Fill(tokens, link)[1..] == Fill(tokens[1..], link);
  }

  /** The first replacement in a text. */
  lemma ReplaceFirst(s: string, k: nat, pattern: string, replacement: string)
    requires pattern != "" && replacement != "" && k < |s| && pattern <= s[k..]
    requires forall j | 0 <= j < k :: !(pattern <= s[j..])
    ensures k < |ReplaceAll(s, pattern, replacement)| && ReplaceAll(s, pattern, replacement)[k] == replacement[0]
  {
    SkipUnmatched(s, k, pattern, replacement);
    var rest := ReplaceAll(s[k..], pattern, replacement);
    assert rest == replacement + ReplaceAll(s[k..][|pattern|..], pattern, replacement);
    assert (s[..k] + rest)[k] == rest[0];
  }

  /** An occurrence inside another placeholder is replaced as well, and spoils it. */
  lemma MistakenInside(tokens: seq<Token>, link: Link)
    requires tokens != [] && PlainAddress(link.address) && !StandsAlone(tokens, link.name)
    ensures LinkOne(Render(tokens), link) != Render(Fill(tokens, link))
  {
    var p, s := Placeholder(link.name), Render(tokens);
    var inside :| 0 < inside < PLACEHOLDER_LENGTH && p <= s[inside..];
    var k := FirstInside(p, s, 0, inside);
    SpoiledAt(tokens, link, k);
  }

  lemma SpoiledAt(tokens: seq<Token>, link: Link, k: nat)
    requires tokens != [] && tokens[0].Hole? && Placeholder(tokens[0].name) != Placeholder(link.name)
    requires PlainAddress(link.address) && k < PLACEHOLDER_LENGTH && Placeholder(link.name) <= Render(tokens)[k..]
    requires forall j | 0 <= j < k :: !(Placeholder(link.name) <= Render(tokens)[j..])
    ensures LinkOne(Render(tokens), link) != Render(Fill(tokens, link))
  {
    var p, q, s, filled := Placeholder(link.name), Placeholder(tokens[0].name), Render(tokens), Render(Fill(tokens, link));
    ReplaceFirst(s, k, p, WithoutPrefix(link.address));
    RenderFill(tokens, link);
    assert filled[k] == q[k] == s[k] == s[k..][0] == p[0] == '_';
  }

  lemma EqualParts(start: string, a: string, b: string)
    ensures start + a == start + b <==> a == b
  {
    assert a == (start + a)[|start|..] && b == (start + b)[|start|..];
  }

  /** What linking does to the first token, if its placeholder stands alone. */
  lemma LinkFirst(tokens: seq<Token>, link: Link)
    requires Compiled(tokens) && tokens != [] && StandsAlone(tokens, link.name)
    ensures LinkOne(Render(tokens), link) == Text(FillToken(tokens[0], link)) + LinkOne(Render(tokens[1..]), link)
  {
    var first, rest, p, s := tokens[0], Render(tokens[1..]), Placeholder(link.name), Render(tokens);
    assert s[|Text(first)|..] == rest;
    if first.Hole? && Placeholder(first.name) == p {
      assert p <= s;
    } else {
      forall k | 0 <= k < |Text(first)|
        ensures !(p <= s[k..])
      {
        PlaceholderShape(link.name);
        assert s[k..][0] == Text(first)[k];
        if first.Hole? && k == 0 {
          assert s[0..][..PLACEHOLDER_LENGTH] == Placeholder(first.name);
        }
      }
      SkipUnmatched(s, |Text(first)|, p, WithoutPrefix(link.address));
      assert s[..|Text(first)|] == Text(first);
    }
  }

  /** Textual replacement fills exactly the placeholders of that name if and only if none of its
      occurrences starts inside another placeholder, for every name and every compiled bytecode. */
  lemma {:induction false} ReplaceFillsIff(tokens: seq<Token>, link: Link)
    requires Compiled(tokens) && PlainAddress(link.address)
    ensures LinkOne(Render(tokens), link) == Render(Fill(tokens, link)) <==> Isolated(tokens, link.name)
    ensures Compiled(Fill(tokens, link))
  {
    if tokens != [] {
      ReplaceFillsIff(tokens[1..], link);
      if StandsAlone(tokens, link.name) {
        LinkFirst(tokens, link);
        RenderFill(tokens, link);
        EqualParts(Text(FillToken(tokens[0], link)), LinkOne(Render(tokens[1..]), link), Render(Fill(tokens[1..], link)));
      } else {
        MistakenInside(tokens, link);
      }
    }
  }

  /** Plain names are isolated in every bytecode. */
  lemma {:induction false} PlainIsIsolated(tokens: seq<Token>, name: string)
    requires AllWellFormed(tokens) && PlainName(name)
    ensures Isolated(tokens, name)
  {
    if tokens != [] {
      PlainIsIsolated(tokens[1..], name);
      if tokens[0].Hole? && Placeholder(tokens[0].name) != Placeholder(name) {
        forall k | 0 < k < PLACEHOLDER_LENGTH
          ensures !(Placeholder(name) <= Render(tokens)[k..])
        {
          NoOverlap(name, tokens[0].name, tokens[1..], k);
        }
      }
    }
  }

  // ---------- Names that are mistaken ----------

  function Codes(s: string): (tokens: seq<Token>)
    ensures |tokens| == |s|
  {
    seq(|s|, i requires 0 <= i < |s| => Code(s[i]))
  }

  lemma {:induction false} RenderCodes(s: string, rest: seq<Token>)
    ensures Render(Codes(s) + rest) == s + Render(rest)
  {
    if s == "" {
      assert Codes(s) + rest == rest;
    } else {
      RenderCodes(s[1..], rest);
      assert (Codes(s) + rest)[0] == Code(s[0]) && (Codes(s) + rest)[1..] == Codes(s[1..]) + rest;
      assert s + Render(rest) == [s[0]] + (s[1..] + Render(rest));
    }
  }

  /** The placeholder of X, then code, then other tokens. */
  function BehindX(code: string, rest: seq<Token>): seq<Token> {
    [Hole("X")] + (Codes(code) + rest)
  }

  lemma RenderBehindX(code: string, rest: seq<Token>)
    ensures Render(BehindX(code, rest)) == Placeholder("X") + (code + Render(rest))
  {
    var tokens := BehindX(code, rest);
    assert tokens[0] == Hole("X") && tokens[1..] == Codes(code) + rest;
    RenderCodes(code, rest);
  }

  /** Names that leave three underscores behind them are not like code. */
  lemma ShortIsNotLikeCode(name: string)
    requires |name| < 36 && name != "" && name[0] != '_' && SingleUnderscores(name)
    ensures PlainName(name)
  {
    PlaceholderShape(name);
    forall n | 36 <= n <= 38
      ensures !LikeCodeUpTo(name, n)
    {
      assert Placeholder(name)[2..2 + n][|name|] == Placeholder(name)[2 + |name|] == '_';
    }
  }

  lemma BehindXIsWellFormed(code: string, rest: seq<Token>)
    requires CodeText(code) && AllWellFormed(rest)
    ensures AllWellFormed(BehindX(code, rest))
  {
    ShortIsNotLikeCode("X");
    var tokens, codes := BehindX(code, rest), Codes(code);
    forall i | 0 <= i < |tokens|
      ensures WellFormed(tokens[i])
    {
      if 1 <= i < 1 + |code| {
        assert tokens[i] == codes[i - 1] == Code(code[i - 1]);
      } else if i > 0 {
        assert tokens[i] == rest[i - 1 - |code|];
      }
    }
  }

  lemma TailOfX(k: nat, after: string)
    requires 38 <= k < PLACEHOLDER_LENGTH
    ensures (Placeholder("X") + after)[k..] == Underscores(40 - k) + after
  {
    PlaceholderShape("X");
  }

  /** A placeholder that the end of another one, code and other tokens spell as well is mistaken. */
  lemma BehindXIsMistaken(name: string, address: string, k: nat, code: string, rest: seq<Token>)
    requires PlainAddress(address) && CodeText(code) && AllWellFormed(rest)
    requires Placeholder(name) != Placeholder("X") && 38 <= k < PLACEHOLDER_LENGTH
    requires Placeholder(name) <= Underscores(40 - k) + (code + Render(rest))
    ensures AllWellFormed(BehindX(code, rest))
    ensures LinkOne(Render(BehindX(code, rest)), Link(name, address)) != Render(Fill(BehindX(code, rest), Link(name, address)))
  {
    var tokens := BehindX(code, rest);
    BehindXIsWellFormed(code, rest);
    RenderBehindX(code, rest);
    TailOfX(k, code + Render(rest));
    assert Placeholder(name) <= Render(tokens)[k..];
    assert !StandsAlone(tokens, name);
    MistakenInside(tokens, Link(name, address));
  }

  lemma PrefixByCharacters(p: string, s: string)
    requires |p| <= |s| && forall i | 0 <= i < |p| :: p[i] == s[i]
    ensures p <= s
  {
  }

  /** Two underscores in a row: the name ab__Z in the bytecode of X, ab and Z. */
  lemma UnderscorePairIsMistaken(address: string)
    requires PlainAddress(address)
    ensures var tokens := BehindX("ab", [Hole("Z")]);
            && AllWellFormed(tokens)
            && LinkOne(Render(tokens), Link("ab__Z", address)) != Render(Fill(tokens, Link("ab__Z", address)))
  {
    PlaceholderShape("Z");
    PlaceholderShape("X");
    PlaceholderShape("ab__Z");
    var rest := [Hole("Z")];
    assert rest[1..] == [];
    var s := Underscores(2) + ("ab" + Render(rest));
    PrefixByCharacters(Placeholder("ab__Z"), s);
    assert Placeholder("ab__Z")[2] != Placeholder("X")[2];
    ShortIsNotLikeCode("Z");
    BehindXIsMistaken("ab__Z", address, 38, "ab", rest);
  }

  /** An underscore in front: the name _A in the bytecode of X and A. */
  lemma LeadingUnderscoreIsMistaken(address: string)
    requires PlainAddress(address)
    ensures var tokens := BehindX("", [Hole("A")]);
            && AllWellFormed(tokens)
            && LinkOne(Render(tokens), Link("_A", address)) != Render(Fill(tokens, Link("_A", address)))
  {
    PlaceholderShape("A");
    PlaceholderShape("X");
    PlaceholderShape("_A");
    var rest := [Hole("A")];
    assert rest[1..] == [];
    var s := Underscores(1) + ("" + Render(rest));
    PrefixByCharacters(Placeholder("_A"), s);
    assert Placeholder("_A")[2] != Placeholder("X")[2];
    ShortIsNotLikeCode("A");
    BehindXIsMistaken("_A", address, 39, "", rest);
  }

  /** Every name that fills its placeholder with code is mistaken behind the placeholder of X. */
  lemma LikeCodeIsMistaken(name: string, address: string) returns (tokens: seq<Token>)
    requires LikeCode(name) && PlainAddress(address)
    ensures AllWellFormed(tokens)
    ensures LinkOne(Render(tokens), Link(name, address)) != Render(Fill(tokens, Link(name, address)))
  {
    var n: nat :| 36 <= n <= 38 && LikeCodeUpTo(name, n);
    var p, rest := Placeholder(name), [Hole("X")];
    var code := p[2..2 + n];
    tokens := BehindX(code, rest);
    PlaceholderShape("X");
    PlaceholderShape(name);
    assert rest[1..] == [];
    var s := Underscores(2) + (code + Render(rest));
    PrefixByCharacters(p, s);
    ShortIsNotLikeCode("X");
    assert p[2] == code[0] && Placeholder("X")[2] == 'X';
    BehindXIsMistaken(name, address, 38, code, rest);
  }

  // ---------- Linking as a whole ----------

  /** The address the first link with this placeholder gives. */
  function AddressFor(links: seq<Link>, name: string): Option<string> {
    if links == [] then None
    else if Placeholder(links[0].name) == Placeholder(name) then Some(WithoutPrefix(links[0].address))
    else AddressFor(links[1..], name)
  }

  /** All placeholders filled at once. */
  function FillAll(tokens: seq<Token>, links: seq<Link>): (r: seq<Token>)
    ensures |r| == |tokens|
  {
    seq(|tokens|, i requires 0 <= i < |tokens| =>
      if tokens[i].Hole? && AddressFor(links, tokens[i].name).Some?
      then Linked(AddressFor(links, tokens[i].name).value) else tokens[i])
  }

  predicate PlainAddresses(links: seq<Link>) {
    forall i | 0 <= i < |links| :: PlainAddress(links[i].address)
  }

  lemma {:induction false} AddressForPlain(links: seq<Link>, name: string)
    requires PlainAddresses(links) && AddressFor(links, name).Some?
    ensures |AddressFor(links, name).value| == PLACEHOLDER_LENGTH && CodeText(AddressFor(links, name).value)
  {
    if Placeholder(links[0].name) != Placeholder(name) {
      AddressForPlain(links[1..], name);
    }
  }

  /** Every name is isolated in the bytecode it is linked in. */
  predicate IsolatedThroughout(tokens: seq<Token>, links: seq<Link>)
    decreases |links|
  {
    links == [] || (Isolated(tokens, links[0].name) && IsolatedThroughout(Fill(tokens, links[0]), links[1..]))
  }

  /** Plain names always are. */
  lemma {:induction false} PlainLinksAreIsolated(tokens: seq<Token>, links: seq<Link>)
    requires AllWellFormed(tokens) && PlainLinks(links)
    ensures Compiled(tokens) && PlainAddresses(links) && IsolatedThroughout(tokens, links)
    decreases |links|
  {
    if links != [] {
      PlainIsIsolated(tokens, links[0].name);
      PlainLinksAreIsolated(Fill(tokens, links[0]), links[1..]);
    }
  }

  /** What the linking of compiled bytecode rests on. */
  predicate CleanlyLinkable(tokens: seq<Token>, links: seq<Link>) {
    Compiled(tokens) && PlainAddresses(links) && IsolatedThroughout(tokens, links)
  }

  /** Linking one name after the other fills every placeholder as if all were filled at once:
      one link never disturbs what another one reads or wrote. */
  lemma {:induction false} LinkAllFills(tokens: seq<Token>, links: seq<Link>)
    requires CleanlyLinkable(tokens, links)
    ensures LinkAll(Render(tokens), links) == Render(FillAll(tokens, links))
    ensures Compiled(FillAll(tokens, links))
    decreases |links|
  {
    if links == [] {
      assert FillAll(tokens, links) == tokens;
    } else {
      ReplaceFillsIff(tokens, links[0]);
      LinkAllFills(Fill(tokens, links[0]), links[1..]);
      assert FillAll(tokens, links) == FillAll(Fill(tokens, links[0]), links[1..]);
    }
  }

  predicate DistinctPlaceholders(links: seq<Link>) {
    forall i, j | 0 <= i < j < |links| :: Placeholder(links[i].name) != Placeholder(links[j].name)
  }

  lemma {:induction false} AddressForMember(links: seq<Link>, name: string, link: Link)
    requires DistinctPlaceholders(links) && link in links && Placeholder(link.name) == Placeholder(name)
    ensures AddressFor(links, name) == Some(WithoutPrefix(link.address))
  {
    if links[0] != link {
      var i :| 0 < i < |links| && links[i] == link;
      assert links[1..][i - 1] == link;
      AddressForMember(links[1..], name, link);
    }
  }

  lemma {:induction false} AddressForSome(links: seq<Link>, name: string)
    ensures AddressFor(links, name).Some? <==> exists link | link in links :: Placeholder(link.name) == Placeholder(name)
  {
    if links != [] {
      AddressForSome(links[1..], name);
      assert links == [links[0]] + links[1..];
    }
  }

  /** The order of the links does not matter when their placeholders differ. */
  lemma LinkOrderIrrelevant(tokens: seq<Token>, links: seq<Link>, others: seq<Link>)
    requires CleanlyLinkable(tokens, links) && CleanlyLinkable(tokens, others) && DistinctPlaceholders(links)
    requires multiset(links) == multiset(others)
    ensures LinkAll(Render(tokens), links) == LinkAll(Render(tokens), others)
  {
    Rearranged(links, others);
    assert forall i | 0 <= i < |others| :: others[i] in links;
    LinkAllFills(tokens, links);
    LinkAllFills(tokens, others);
    forall i | 0 <= i < |tokens|
      ensures FillAll(tokens, links)[i] == FillAll(tokens, others)[i]
    {
      if tokens[i].Hole? {
        SameAddress(links, others, tokens[i].name);
      }
    }
    assert FillAll(tokens, links) == FillAll(tokens, others);
  }

  lemma SameAddress(links: seq<Link>, others: seq<Link>, name: string)
    requires DistinctPlaceholders(links) && multiset(links) == multiset(others)
    ensures AddressFor(links, name) == AddressFor(others, name)
  {
    Rearranged(links, others);
    AddressForSome(links, name);
    AddressForSome(others, name);
    if AddressFor(others, name).Some? {
      var link := FirstMatch(others, name);
      AddressForMember(links, name, link);
    }
  }

  lemma {:induction false} FirstMatch(links: seq<Link>, name: string) returns (link: Link)
    requires AddressFor(links, name).Some?
    ensures link in links && Placeholder(link.name) == Placeholder(name)
    ensures AddressFor(links, name) == Some(WithoutPrefix(link.address))
  {
    link := links[0];
    if Placeholder(link.name) != Placeholder(name) {
      link := FirstMatch(links[1..], name);
    }
  }

  /** The first link with the placeholder of this name. */
  predicate FirstFor(links: seq<Link>, name: string, k: nat) {
    && k < |links| && Placeholder(links[k].name) == Placeholder(name)
    && forall j | 0 <= j < k :: Placeholder(links[j].name) != Placeholder(name)
  }

  lemma {:induction false} AddressForFirst(links: seq<Link>, name: string, k: nat)
    requires FirstFor(links, name, k)
    ensures AddressFor(links, name) == Some(WithoutPrefix(links[k].address))
    decreases k
  {
    if k > 0 {
      AddressForFirst(links[1..], name, k - 1);
    }
  }

  lemma {:induction false} AddressForPrefix(links: seq<Link>, m: nat, name: string)
    requires m <= |links|
    ensures AddressFor(links[..m], name).Some? ==> AddressFor(links, name) == AddressFor(links[..m], name)
  {
    if m > 0 {
      AddressForPrefix(links[1..], m - 1, name);
      assert links[..m][1..] == links[1..][..m - 1];
    }
  }

  /** Bytecode that was linked with the first m contracts only is linked to the same text as the
      original one later, with the same addresses of those. */
  lemma RelinkedTheSame(tokens: seq<Token>, links: seq<Link>, m: nat)
    requires AllWellFormed(tokens) && PlainLinks(links) && m <= |links|
    ensures LinkAll(LinkAll(Render(tokens), links[..m]), links) == LinkAll(Render(tokens), links)
  {
    var partly := FillAll(tokens, links[..m]);
    PlainLinksAreIsolated(tokens, links[..m]);
    LinkAllFills(tokens, links[..m]);
    PlainLinksAreIsolated(tokens, links);
    LinkAllFills(tokens, links);
    assert AllWellFormed(partly);
    PlainLinksAreIsolated(partly, links);
    LinkAllFills(partly, links);
    forall i | 0 <= i < |tokens|
      ensures FillAll(partly, links)[i] == FillAll(tokens, links)[i]
    {
      if tokens[i].Hole? {
        AddressForPrefix(links, m, tokens[i].name);
      }
    }
    assert FillAll(partly, links) == FillAll(tokens, links);
  }

  lemma {:induction false} RenderSplit(left: seq<Token>, right: seq<Token>)
    ensures Render(left + right) == Render(left) + Render(right)
  {
    if left == [] {
      assert left + right == right;
    } else {
      assert (left + right)[1..] == left[1..] + right;
      RenderSplit(left[1..], right);
    }
  }

  lemma RenderAround(tokens: seq<Token>, i: nat)
    requires i < |tokens|
    ensures Render(tokens) == Render(tokens[..i]) + Text(tokens[i]) + Render(tokens[i + 1..])
  {
    assert tokens == tokens[..i] + tokens[i..];
    RenderSplit(tokens[..i], tokens[i..]);
    assert tokens[i..][1..] == tokens[i + 1..];
  }

  lemma RenderAt(tokens: seq<Token>, filled: seq<Token>, i: nat)
    requires |tokens| == |filled| && i < |tokens|
    requires forall j | 0 <= j < |tokens| :: |Text(tokens[j])| == |Text(filled[j])|
    ensures |Render(tokens)| == |Render(filled)|
    ensures var from := |Render(tokens[..i])|;
            && from + |Text(tokens[i])| <= |Render(tokens)|
            && Render(tokens)[from..from + |Text(tokens[i])|] == Text(tokens[i])
            && Render(filled)[from..from + |Text(tokens[i])|] == Text(filled[i])
  {
    RenderAround(tokens, i);
    RenderAround(filled, i);
    RenderLengths(tokens, filled);
    RenderLengths(tokens[..i], filled[..i]);
  }

  lemma {:induction false} RenderLengths(tokens: seq<Token>, filled: seq<Token>)
    requires |tokens| == |filled|
    requires forall j | 0 <= j < |tokens| :: |Text(tokens[j])| == |Text(filled[j])|
    ensures |Render(tokens)| == |Render(filled)|
  {
    if tokens != [] {
      RenderLengths(tokens[1..], filled[1..]);
    }
  }

  /** Linking keeps the length of the bytecode; at the place of each placeholder stands, behind the
      0x that is left out, the address of the first contract linked under that name, and at any other
      place what stood there before. */
  lemma LinkKeepsPlaces(tokens: seq<Token>, links: seq<Link>, i: nat)
    requires CleanlyLinkable(tokens, links) && i < |tokens|
    ensures var linked, from := LinkAll(Render(tokens), links), |Render(tokens[..i])|;
            && |linked| == |Render(tokens)|
            && from + |Text(tokens[i])| <= |linked|
            && Render(tokens)[from..from + |Text(tokens[i])|] == Text(tokens[i])
            && linked[from..from + |Text(tokens[i])|]
            == if tokens[i].Hole? && AddressFor(links, tokens[i].name).Some?
               then AddressFor(links, tokens[i].name).value else Text(tokens[i])
    ensures tokens[i].Hole? ==>
              var linked, from := LinkAll(Render(tokens), links), |Render(tokens[..i])|;
              forall k: nat | FirstFor(links, tokens[i].name, k) && "0x" <= links[k].address ::
                "0x" + linked[from..from + PLACEHOLDER_LENGTH] == links[k].address
    ensures tokens[i].Hole? && (forall link | link in links :: Placeholder(link.name) != Placeholder(tokens[i].name)) ==>
              var linked, from := LinkAll(Render(tokens), links), |Render(tokens[..i])|;
              linked[from..from + PLACEHOLDER_LENGTH] == Placeholder(tokens[i].name)
  {
    LinkAllFills(tokens, links);
    if tokens[i].Hole? {
      AddressForSome(links, tokens[i].name);
      forall k: nat | FirstFor(links, tokens[i].name, k)
        ensures AddressFor(links, tokens[i].name) == Some(WithoutPrefix(links[k].address))
      {
        AddressForFirst(links, tokens[i].name, k);
      }
    }
    forall j | 0 <= j < |tokens|
      ensures |Text(FillAll(tokens, links)[j])| == |Text(tokens[j])|
    {
      if tokens[j].Hole? && AddressFor(links, tokens[j].name).Some? {
        AddressForPlain(links, tokens[j].name);
      }
    }
    RenderAt(tokens, FillAll(tokens, links), i);
  }

  lemma {:induction false} UnderscoreMarksHole(tokens: seq<Token>)
    requires Compiled(tokens)
    ensures '_' in Render(tokens) <==> exists i | 0 <= i < |tokens| :: tokens[i].Hole?
    ensures Render(tokens) == "" <==> tokens == []
  {
    if tokens != [] {
      var first := Text(tokens[0]);
      UnderscoreMarksHole(tokens[1..]);
      assert tokens == [tokens[0]] + tokens[1..];
      if tokens[0].Hole? {
        PlaceholderShape(tokens[0].name);
        assert Render(tokens)[0] == first[0] == '_';
      } else {
        assert '_' !in first;
        assert (exists i | 0 <= i < |tokens| :: tokens[i].Hole?) ==> exists i | 0 <= i < |tokens[1..]| :: tokens[1..][i].Hole?;
      }
    }
  }

  /** The bytecode counts as fully linked exactly if there is some and every placeholder in it
      belongs to one of the links. */
  lemma FullyLinkedIff(tokens: seq<Token>, links: seq<Link>)
    requires CleanlyLinkable(tokens, links)
    ensures FullyLinked(LinkAll(Render(tokens), links)) <==>
              && tokens != []
              && forall i | 0 <= i < |tokens| && tokens[i].Hole? ::
                   exists link | link in links :: Placeholder(link.name) == Placeholder(tokens[i].name)
  {
    LinkAllFills(tokens, links);
    var filled := FillAll(tokens, links);
    UnderscoreMarksHole(filled);
    forall i | 0 <= i < |tokens| && tokens[i].Hole?
      ensures filled[i].Hole? <==> !exists link | link in links :: Placeholder(link.name) == Placeholder(tokens[i].name)
    {
      AddressForSome(links, tokens[i].name);
    }
    assert forall i | 0 <= i < |tokens| :: filled[i].Hole? ==> tokens[i].Hole?;
  }
}
