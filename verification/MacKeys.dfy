/**
 The keys of the pending-MAC cache (src/nas_os_mac.cpp): two dot-free parts joined by one dot, and
 the splitting that takes them apart again.
 */
module MacKeys {

  predicate DotFree(s: string) { '.' !in s }

  /** std_mac_to_string prints colon-separated hexadecimal digits: never empty, never a dot. */
  type MacText = s: string | s != "" && DotFree(s) witness "0"

  function Digit(d: nat): char
    requires d < 10
  {
    ['0', '1', '2', '3', '4', '5', '6', '7', '8', '9'][d]
  }

  /** std::to_string and printf's %d. */
  function Decimal(n: int): (s: string)
    ensures s != "" && DotFree(s)
    decreases n < 0, if n < 0 then -n else n
  {
    if n < 0 then "-" + Decimal(-n)
    else if n < 10 then [Digit(n)]
    else Decimal(n / 10) + [Digit(n % 10)]
  }

  /** What a key names besides the MAC: a VLAN bridge, or the interface of a tunnel endpoint. */
  datatype Scope = Bridge(vid: nat) | Endpoint(ifindex: int)

  function ScopeText(scope: Scope): (s: string)
    ensures s != "" && DotFree(s)
  {
    match scope
    case Bridge(vid) => "br" + Decimal(vid)
    case Endpoint(ifindex) => Decimal(ifindex)
  }

  function Key(scope: Scope, mac: MacText): string { ScopeText(scope) + "." + mac }

  /** The position of the first dot, or the length. */
  function FirstDot(s: string): (i: nat)
    ensures i <= |s| && DotFree(s[..i]) && (i < |s| ==> s[i] == '.')
  {
    if s == "" || s[0] == '.' then 0
    else
      var i := 1 + FirstDot(s[1..]);
      assert s[..i] == [s[0]] + s[1..][..i - 1];
      i
  }

  /** The tokens std::getline delivers: a dot ends a token, and nothing follows a final dot. */
  function Tokens(s: string): seq<string>
    decreases |s|
  {
    if s == "" then []
    else
      var i := FirstDot(s);
      [s[..i]] + if i < |s| then Tokens(s[i + 1..]) else []
  }

  /** nas_mac_split_string. */
  method SplitString(input: string) returns (tokens: seq<string>)
    ensures tokens == Tokens(input)
  {
    tokens := [];
    var rest := input;
    while rest != ""
      invariant Tokens(input) == tokens + Tokens(rest)
      decreases |rest|
    {
      var i := FirstDot(rest);
      tokens := tokens + [rest[..i]];
      rest := if i < |rest| then rest[i + 1..] else "";
    }
  }

  /** The tokens joined by dots. */
  function Joined(tokens: seq<string>): string {
    if tokens == [] then "" else if |tokens| == 1 then tokens[0] else tokens[0] + "." + Joined(tokens[1..])
  }

  lemma JoinedCons(t: string, ts: seq<string>)
    ensures Joined([t] + ts) == if ts == [] then t else t + "." + Joined(ts)
  {
    assert ([t] + ts)[1..] == ts;
  }

  /** The texts are equal up to one dot at the end of the first. */
  predicate UpToFinalDot(s: string, t: string) { s == t || s == t + "." }

  lemma UpToFinalDotCons(a: string, s: string, t: string)
    requires UpToFinalDot(s, t)
    ensures UpToFinalDot(a + "." + s, a + "." + t)
  {
    assert a + "." + (t + ".") == a + "." + t + ".";
  }

  lemma CutAtDot(s: string, i: nat)
    requires i < |s| && s[i] == '.'
    ensures s == s[..i] + "." + s[i + 1..]
  {
  }

  /** No token has a dot, and joining them gives back the text, up to one dot at its end. */
  lemma {:induction false} TokensMeaning(s: string)
    ensures forall t :: t in Tokens(s) ==> DotFree(t)
    ensures UpToFinalDot(s, Joined(Tokens(s)))
    decreases |s|
  {
    var i := FirstDot(s);
    if i < |s| {
      var a, rest := s[..i], s[i + 1..];
      CutAtDot(s, i);
      TokensMeaning(rest);
      JoinedCons(a, Tokens(rest));
      UpToFinalDotCons(a, rest, Joined(Tokens(rest)));
      assert rest == "" ==> a + "." + rest == a + ".";
    } else {
      assert s[..i] == s;
    }
  }

  lemma {:induction false} FirstDotAfter(a: string, b: string)
    requires DotFree(a)
    ensures FirstDot(a + "." + b) == |a|
    decreases |a|
  {
    var s := a + "." + b;
    if a != "" {
      assert s[1..] == a[1..] + "." + b;
      FirstDotAfter(a[1..], b);
    }
  }

  lemma NoDot(b: string)
    requires DotFree(b)
    ensures FirstDot(b) == |b|
  {
  }

  /**
   Splitting takes a joined pair apart into exactly its two parts if and only if the second part is
   not empty; with an empty second part one token is left, and the retry loop would never move on.
   */
  lemma SplitJoined(a: string, b: string)
    requires DotFree(a) && DotFree(b)
    ensures Tokens(a + "." + b) == [a, b] <==> b != ""
    ensures |Tokens(a + "." + b)| == 2 <==> b != ""
  {
    var s := a + "." + b;
    FirstDotAfter(a, b);
    assert s[..|a|] == a && s[|a| + 1..] == b;
    if b != "" {
      NoDot(b);
      assert b[..|b|] == b;
      assert Tokens(b) == [b];
    }
  }

  /** Every key the cache stores splits into its scope and its MAC. */
  lemma KeySplits(scope: Scope, mac: MacText)
    ensures Tokens(Key(scope, mac)) == [ScopeText(scope), mac]
  {
    SplitJoined(ScopeText(scope), mac);
  }

  // ---------------------------------------------------------------- keys are unambiguous

  /** The number a text of decimal digits stands for. */
  function Value(s: string): int {
    if s == "" then 0 else 10 * Value(s[..|s| - 1]) + (s[|s| - 1] as int - '0' as int)
  }

  lemma {:induction false} DecimalValue(n: nat)
    ensures Value(Decimal(n)) == n
    ensures forall c :: c in Decimal(n) ==> '0' <= c <= '9'
  {
    if n < 10 {
      assert Decimal(n)[..0] == "";
    } else {
      DecimalValue(n / 10);
      assert Decimal(n)[..|Decimal(n)| - 1] == Decimal(n / 10);
    }
  }

  /** A number is printed as its decimal digits, with a minus sign in front when it is negative. */
  lemma DecimalMeaning(n: int)
    ensures n >= 0 ==> Decimal(n)[0] != '-' && Value(Decimal(n)) == n
    ensures n < 0 ==> Decimal(n)[0] == '-' && Value(Decimal(n)[1..]) == -n
  {
    DecimalValue(if n < 0 then -n else n);
    if n >= 0 {
      assert Decimal(n)[0] in Decimal(n);
    } else {
      assert Decimal(n)[1..] == Decimal(-n);
    }
  }

  lemma ScopeTextMeaning(scope: Scope)
    ensures ScopeText(scope)[0] == 'b' <==> scope.Bridge?
    ensures scope.Bridge? ==> ScopeText(scope)[2..] == Decimal(scope.vid)
  {
    if scope.Endpoint? {
      DecimalMeaning(scope.ifindex);
      if scope.ifindex >= 0 {
        DecimalValue(scope.ifindex);
        assert ScopeText(scope)[0] in Decimal(scope.ifindex);
      }
    }
  }

  lemma DecimalDetermines(m: int, n: int)
    requires Decimal(m) == Decimal(n)
    ensures m == n
  {
    DecimalMeaning(m);
    DecimalMeaning(n);
  }

  lemma ScopeTextDetermines(s: Scope, t: Scope)
    requires ScopeText(s) == ScopeText(t)
    ensures s == t
  {
    ScopeTextMeaning(s);
    ScopeTextMeaning(t);
    if s.Bridge? {
      DecimalDetermines(s.vid, t.vid);
    } else {
      DecimalDetermines(s.ifindex, t.ifindex);
    }
  }

  /** Different scopes or MACs never share a key. */
  lemma KeysDiffer(s: Scope, m: MacText, t: Scope, n: MacText)
    ensures Key(s, m) == Key(t, n) <==> s == t && m == n
  {
    if Key(s, m) == Key(t, n) {
      KeySplits(s, m);
      KeySplits(t, n);
      assert [ScopeText(s), m][0] == [ScopeText(t), n][0] && [ScopeText(s), m][1] == [ScopeText(t), n][1];
      ScopeTextDetermines(s, t);
    }
  }

  /** The key of a MAC in VLAN 10 and of one behind interface 27. */
  lemma KeyTexts(mac: MacText)
    ensures Key(Bridge(10), mac) == "br10." + mac && Key(Endpoint(27), mac) == "27." + mac
  {
    assert Decimal(10) == "10" && Decimal(27) == "27";
  }
}
