/** The alias generator of `src/lib/utils.ts`.

    Every call to `Math.random()` is replaced by a value the caller supplies
    (an "oracle"): `picks` are the alphabet indices drawn by
    `generateRandomString`, `coins` the "insert a dot here" decisions of
    `addDotsToUsername` and `forcedPos` the position it falls back to when no
    coin came up. Each property below is stated for every such choice. */
module Utils {
  import opened Optional
  import opened JsString

  // ---------------------------------------------------------------------
  // generateRandomString
  // ---------------------------------------------------------------------

  const LowerChars: string := "abcdefghijklmnopqrstuvwxyz0123456789"
  const UpperChars: string := "ABCDEFGHIJKLMNOPQRSTUVWXYZ0123456789"

  /** The alphabet chosen by the `switch` on the case style: any value other
      than "lowercase" and "uppercase" falls into the mixed branch. */
  function Alphabet(caseStyle: string): string {
    if caseStyle == "lowercase" then LowerChars
    else if caseStyle == "uppercase" then UpperChars
    else LowerChars + UpperChars
  }

  lemma LowerCharsClasses(c: char)
    requires c in LowerChars
    ensures IsAsciiLower(c) || IsAsciiDigit(c)
  {
  }

  lemma UpperCharsClasses(c: char)
    requires c in UpperChars
    ensures IsAsciiUpper(c) || IsAsciiDigit(c)
  {
  }

  /** The characters of each alphabet, by class. */
  lemma AlphabetClasses(caseStyle: string, c: char)
    requires c in Alphabet(caseStyle)
    ensures
      if caseStyle == "lowercase" then IsAsciiLower(c) || IsAsciiDigit(c)
      else if caseStyle == "uppercase" then IsAsciiUpper(c) || IsAsciiDigit(c)
      else IsAsciiLetter(c) || IsAsciiDigit(c)
  {
    if c in LowerChars {
      LowerCharsClasses(c);
    }
    if c in UpperChars {
      UpperCharsClasses(c);
    }
  }

  /** The oracle gives an in-range index for every character drawn. */
  predicate PicksFit(length: int, caseStyle: string, picks: seq<nat>) {
    length <= |picks| && forall i :: 0 <= i < |picks| ==> picks[i] < |Alphabet(caseStyle)|
  }

  /** The string `generateRandomString(length, caseStyle)` returns when the
      i-th draw picks index `picks[i]`. */
  function RandomString(length: int, caseStyle: string, picks: seq<nat>): (s: string)
    requires PicksFit(length, caseStyle, picks)
    ensures |s| == if length < 0 then 0 else length
    ensures forall i :: 0 <= i < |s| ==> s[i] in Alphabet(caseStyle)
  {
    var chars := Alphabet(caseStyle);
    seq(if length < 0 then 0 else length, i requires 0 <= i < |picks| && picks[i] < |chars| => chars[picks[i]])
  }

  /** Every character of a random string belongs to the class its style names. */
  lemma RandomStringClasses(length: int, caseStyle: string, picks: seq<nat>)
    requires PicksFit(length, caseStyle, picks)
    ensures forall i :: 0 <= i < |RandomString(length, caseStyle, picks)| ==>
      var c := RandomString(length, caseStyle, picks)[i];
      if caseStyle == "lowercase" then IsAsciiLower(c) || IsAsciiDigit(c)
      else if caseStyle == "uppercase" then IsAsciiUpper(c) || IsAsciiDigit(c)
      else IsAsciiLetter(c) || IsAsciiDigit(c)
  {
    var s := RandomString(length, caseStyle, picks);
    forall i | 0 <= i < |s| {
      AlphabetClasses(caseStyle, s[i]);
    }
  }

  /** `generateRandomString`: appends one drawn character per iteration. */
  method GenerateRandomString(length: int, caseStyle: string, picks: seq<nat>) returns (result: string)
    requires PicksFit(length, caseStyle, picks)
    ensures |result| == if length < 0 then 0 else length
    ensures forall i :: 0 <= i < |result| ==> result[i] == Alphabet(caseStyle)[picks[i]]
    ensures result == RandomString(length, caseStyle, picks)
  {
    var chars := Alphabet(caseStyle);
    result := "";
    var i := 0;
    while i < length
      invariant 0 <= i <= if length < 0 then 0 else length
      invariant |result| == i
      invariant forall k :: 0 <= k < i ==> result[k] == chars[picks[k]]
    {
      result := result + [chars[picks[i]]];
      i := i + 1;
    }
  }

  // ---------------------------------------------------------------------
  // sanitizeDescription
  // ---------------------------------------------------------------------

  /** The characters of the regular-expression class `\s`: WhiteSpace and
      LineTerminator of ECMAScript. */
  predicate IsJsWhitespace(c: char) {
    c == '\t' || c == '\U{000B}' || c == '\U{000C}' || c == ' '
    || c == '\U{00A0}' || c == '\U{1680}' || ('\U{2000}' <= c <= '\U{200A}')
    || c == '\U{202F}' || c == '\U{205F}' || c == '\U{3000}' || c == '\U{FEFF}'
    || IsLineTerminator(c)
  }

  /** A character that `[^a-zA-Z0-9\s]` does not match, so the replace keeps it. */
  predicate IsKept(c: char) {
    IsAsciiLetter(c) || IsAsciiDigit(c) || IsJsWhitespace(c)
  }

  /** `replace(/[^a-zA-Z0-9\s]/g, '')`: drops every character that is not kept. */
  function StripSpecial(s: string): string {
    if s == [] then []
    else (if IsKept(s[0]) then [s[0]] else []) + StripSpecial(s[1..])
  }

  /** The cleaned text holds exactly the kept characters of the input, and
      text that is already clean is left as it is. */
  lemma {:induction false} StripSpecialKeeps(s: string)
    ensures forall c :: c in StripSpecial(s) <==> c in s && IsKept(c)
    ensures (forall c :: c in s ==> IsKept(c)) ==> StripSpecial(s) == s
  {
    if s != [] {
      StripSpecialKeeps(s[1..]);
      assert forall c :: c in s <==> c == s[0] || c in s[1..];
      assert s == [s[0]] + s[1..];
    }
  }

  /** The replace works character by character: cleaning a concatenation
      cleans each side. */
  lemma {:induction false} StripSpecialConcat(a: string, b: string)
    ensures StripSpecial(a + b) == StripSpecial(a) + StripSpecial(b)
  {
    if a == [] {
      assert a + b == b;
    } else {
      assert (a + b)[0] == a[0];
      assert (a + b)[1..] == a[1..] + b;
      StripSpecialConcat(a[1..], b);
    }
  }

  /** Together with `StripSpecialConcat` this determines the replace
      completely: each character is kept in place exactly when it is an ASCII
      letter, a digit or `\s`, and the text around it is cleaned on its own. */
  lemma StripSpecialSplice(before: string, c: char, after: string)
    ensures StripSpecial(before + [c] + after)
      == StripSpecial(before) + (if IsKept(c) then [c] else []) + StripSpecial(after)
  {
    StripSpecialConcat(before + [c], after);
    StripSpecialConcat(before, [c]);
    assert [c][1..] == [];
  }

  /** `filter(Boolean)` on an array of strings: drops the empty ones. */
  function DropEmpty(parts: seq<string>): seq<string> {
    if parts == [] then []
    else (if parts[0] == "" then [] else [parts[0]]) + DropEmpty(parts[1..])
  }

  /** `word.charAt(0).toUpperCase() + word.slice(1).toLowerCase()`. */
  function Capitalize(word: string): string {
    if word == "" then "" else [ToUpperAscii(word[0])] + LowerString(word[1..])
  }

  /** `map(Capitalize).join('')`. */
  function ConcatCapitalized(words: seq<string>): string {
    if words == [] then "" else Capitalize(words[0]) + ConcatCapitalized(words[1..])
  }

  /** `sanitizeDescription`: the empty description becomes "Alias"; any other
      is cleaned, split on spaces and glued back as one CamelCase word. */
  function SanitizeDescription(description: string): string {
    if description == "" then "Alias"
    else ConcatCapitalized(DropEmpty(Split(StripSpecial(description), ' ')))
  }

  /** An independent, one-pass reading of the same pipeline: spaces are
      dropped, the first character after a space (or at the start) is
      upper-cased and every other character lower-cased. */
  function CamelCase(s: string, atWordStart: bool): string {
    if s == [] then []
    else if s[0] == ' ' then CamelCase(s[1..], true)
    else [if atWordStart then ToUpperAscii(s[0]) else ToLowerAscii(s[0])] + CamelCase(s[1..], false)
  }

  /** The one-pass reading drops exactly the spaces, and the case changes
      keep every kept character kept. */
  lemma {:induction false} CamelCaseShape(s: string, atWordStart: bool)
    ensures |CamelCase(s, atWordStart)| == |s| - Occurrences(s, ' ')
    ensures ' ' !in CamelCase(s, atWordStart)
    ensures (forall c :: c in s ==> IsKept(c)) ==> forall c :: c in CamelCase(s, atWordStart) ==> IsKept(c)
  {
    if s != [] {
      CamelCaseShape(s[1..], s[0] == ' ');
      assert forall c :: c in s[1..] ==> c in s;
    }
  }

  /** Dropping the empty pieces only removes pieces that capitalise to nothing. */
  lemma {:induction false} ConcatDropEmptyCons(parts: seq<string>)
    requires parts != []
    ensures ConcatCapitalized(DropEmpty(parts)) == Capitalize(parts[0]) + ConcatCapitalized(DropEmpty(parts[1..]))
  {
    if parts[0] == "" {
      assert DropEmpty(parts) == DropEmpty(parts[1..]);
    } else {
      var rest := DropEmpty(parts[1..]);
      assert DropEmpty(parts) == [parts[0]] + rest;
      assert ([parts[0]] + rest)[1..] == rest;
    }
  }

  /** The one-pass reading agrees with split/filter/map/join, word by word:
      the pieces after the first are capitalised, and the first is
      capitalised or lower-cased according to `atWordStart`. */
  lemma {:induction false} CamelCaseWords(s: string, atWordStart: bool)
    ensures CamelCase(s, atWordStart) ==
      (if atWordStart then Capitalize(Split(s, ' ')[0]) else LowerString(Split(s, ' ')[0]))
      + ConcatCapitalized(DropEmpty(Split(s, ' ')[1..]))
  {
    if s != [] {
      var rest := Split(s[1..], ' ');
      if s[0] == ' ' {
        CamelCaseWords(s[1..], true);
        assert Split(s, ' ') == [""] + rest;
        assert ([""] + rest)[1..] == rest;
        ConcatDropEmptyCons(rest);
      } else {
        CamelCaseWords(s[1..], false);
        var first := [s[0]] + rest[0];
        assert Split(s, ' ') == [first] + rest[1..];
        assert ([first] + rest[1..])[1..] == rest[1..];
        assert first[1..] == rest[0];
      }
    }
  }

  /** A non-empty description is sanitised exactly as the one-pass reading
      does it on the cleaned text. */
  lemma SanitizeIsCamelCase(description: string)
    requires description != ""
    ensures SanitizeDescription(description) == CamelCase(StripSpecial(description), true)
  {
    var parts := Split(StripSpecial(description), ' ');
    ConcatDropEmptyCons(parts);
    CamelCaseWords(StripSpecial(description), true);
  }

  /** The sanitised description is one word: no space, and only ASCII
      letters, digits and the other `\s` characters (which the split on ' '
      does not remove). For a non-empty input its length is the number of
      kept non-space characters. */
  lemma SanitizeCharacters(description: string)
    ensures ' ' !in SanitizeDescription(description)
    ensures forall c :: c in SanitizeDescription(description) ==> IsKept(c)
    ensures description != "" ==>
      |SanitizeDescription(description)| == |StripSpecial(description)| - Occurrences(StripSpecial(description), ' ')
  {
    if description == "" {
      assert SanitizeDescription(description) == "Alias";
      assert forall c :: c in "Alias" ==> IsAsciiLetter(c);
    } else {
      SanitizeIsCamelCase(description);
      StripSpecialKeeps(description);
      CamelCaseShape(StripSpecial(description), true);
    }
  }

  /** The "Alias" fallback is for the empty input only: a non-empty input
      with nothing but spaces and stripped characters sanitises to "". */
  lemma SanitizeFallback(description: string)
    ensures description == "" ==> SanitizeDescription(description) == "Alias"
    ensures description != "" && (forall c :: c in description ==> c == ' ' || !IsKept(c))
      ==> SanitizeDescription(description) == ""
  {
    if description != "" && (forall c :: c in description ==> c == ' ' || !IsKept(c)) {
      var cleaned := StripSpecial(description);
      StripSpecialKeeps(description);
      SanitizeIsCamelCase(description);
      CamelCaseBlank(cleaned, true);
    }
  }

  /** Whitespace other than ' ' survives: the cleaning keeps all of `\s`
      but the split is on ' ' only, so a tab stays inside the word. */
  lemma SanitizeKeepsTab()
    ensures SanitizeDescription("a\tb") == "A\tb"
  {
    var d := "a\tb";
    SanitizeIsCamelCase(d);
    StripSpecialKeeps(d);
    assert forall c :: c in d ==> IsKept(c);
    assert d[1..] == "\tb" && d[1..][1..] == "b";
    assert CamelCase("b", false) == "b";
    assert CamelCase("\tb", false) == "\tb";
  }

  lemma {:induction false} CamelCaseBlank(s: string, atWordStart: bool)
    requires forall c :: c in s ==> c == ' '
    ensures CamelCase(s, atWordStart) == ""
  {
    if s != [] {
      assert s[0] in s;
      assert forall c :: c in s[1..] ==> c in s;
      CamelCaseBlank(s[1..], true);
    }
  }

  // ---------------------------------------------------------------------
  // addDotsToUsername
  // ---------------------------------------------------------------------

  /** Number of gaps with an inserted dot. */
  function CountTrue(gaps: seq<bool>): nat {
    if gaps == [] then 0 else (if gaps[0] then 1 else 0) + CountTrue(gaps[1..])
  }

  lemma {:induction false} CountTrueBounds(gaps: seq<bool>)
    ensures CountTrue(gaps) <= |gaps|
    ensures CountTrue(gaps) == 0 <==> true !in gaps
  {
    if gaps != [] {
      CountTrueBounds(gaps[1..]);
      assert gaps == [gaps[0]] + gaps[1..];
    }
  }

  lemma {:induction false} CountTrueSnoc(gaps: seq<bool>, b: bool)
    ensures CountTrue(gaps + [b]) == CountTrue(gaps) + (if b then 1 else 0)
  {
    if gaps == [] {
      assert gaps + [b] == [b];
    } else {
      assert (gaps + [b])[1..] == gaps[1..] + [b];
      CountTrueSnoc(gaps[1..], b);
    }
  }

  function Dot(inserted: bool): string {
    if inserted then "." else ""
  }

  /** The username with a dot in each gap i (between characters i and i+1)
      for which `gaps[i]` holds. */
  function Interleave(username: string, gaps: seq<bool>): string
    requires |username| >= 1 && |gaps| == |username| - 1
  {
    if |username| == 1 then username
    else [username[0]] + Dot(gaps[0]) + Interleave(username[1..], gaps[1..])
  }

  /** One character per username character plus one dot per marked gap; the
      first and last characters are the username's own; nothing but the
      username's characters and dots appears. */
  lemma {:induction false} InterleaveShape(username: string, gaps: seq<bool>)
    requires |username| >= 1 && |gaps| == |username| - 1
    ensures var r := Interleave(username, gaps);
      && |r| == |username| + CountTrue(gaps)
      && r[0] == username[0]
      && r[|r| - 1] == username[|username| - 1]
      && forall c :: c in r ==> c in username || c == '.'
  {
    if |username| > 1 {
      InterleaveShape(username[1..], gaps[1..]);
      assert forall c :: c in username[1..] ==> c in username;
    }
  }

  /** Appending a character extends the interleaving at its end: the shape
      the loop of `addDotsToUsername` builds. */
  lemma {:induction false} InterleaveSnoc(username: string, gaps: seq<bool>, c: char, b: bool)
    requires |username| >= 1 && |gaps| == |username| - 1
    ensures Interleave(username + [c], gaps + [b]) == Interleave(username, gaps) + Dot(b) + [c]
  {
    var u := username + [c];
    var g := gaps + [b];
    if |username| == 1 {
      assert u == [username[0], c];
      assert g == [b];
    } else {
      assert u[1..] == username[1..] + [c];
      assert g[1..] == gaps[1..] + [b];
      InterleaveSnoc(username[1..], gaps[1..], c, b);
    }
  }

  /** The mask with exactly one inserted dot, in gap k (none when k is out
      of range). */
  function OnlyAt(n: nat, k: int): seq<bool> {
    seq(n, i => i == k)
  }

  lemma {:induction false} InterleaveNone(username: string)
    requires |username| >= 1
    ensures Interleave(username, OnlyAt(|username| - 1, -1)) == username
  {
    if |username| > 1 {
      assert OnlyAt(|username| - 1, -1)[1..] == OnlyAt(|username| - 2, -1);
      InterleaveNone(username[1..]);
    }
  }

  /** The fallback `slice(0, p) + '.' + slice(p)` is the interleaving with one
      dot in gap p - 1. */
  lemma {:induction false} InterleaveForced(username: string, k: nat)
    requires k < |username| - 1
    ensures Interleave(username, OnlyAt(|username| - 1, k)) == username[..k + 1] + "." + username[k + 1..]
  {
    var n := |username|;
    var gaps := OnlyAt(n - 1, k);
    if k == 0 {
      assert gaps[1..] == OnlyAt(n - 2, -1);
      InterleaveNone(username[1..]);
      assert username[..1] == [username[0]];
    } else {
      assert gaps[1..] == OnlyAt(n - 2, k - 1);
      InterleaveForced(username[1..], k - 1);
      assert username[..k + 1] == [username[0]] + username[1..][..k];
      assert username[k + 1..] == username[1..][k..];
    }
  }

  /** Removes, after each character, the dot that `gaps` says was inserted
      there: the inverse of `Interleave`. */
  function Undot(r: string, gaps: seq<bool>): string
    decreases |gaps|
  {
    if gaps == [] || r == [] then r
    else if gaps[0] && |r| >= 2 then [r[0]] + Undot(r[2..], gaps[1..])
    else [r[0]] + Undot(r[1..], gaps[1..])
  }

  lemma {:induction false} UndotInterleave(username: string, gaps: seq<bool>)
    requires |username| >= 1 && |gaps| == |username| - 1
    ensures Undot(Interleave(username, gaps), gaps) == username
  {
    if |username| > 1 {
      var r := Interleave(username, gaps);
      var tail := Interleave(username[1..], gaps[1..]);
      UndotInterleave(username[1..], gaps[1..]);
      if gaps[0] {
        assert r[2..] == tail;
      } else {
        assert r[1..] == tail;
      }
    }
  }

  /** The string without any '.' at all. */
  function RemoveDots(s: string): string {
    if s == [] then [] else (if s[0] == '.' then [] else [s[0]]) + RemoveDots(s[1..])
  }

  lemma {:induction false} RemoveDotsConcat(a: string, b: string)
    ensures RemoveDots(a + b) == RemoveDots(a) + RemoveDots(b)
  {
    if a == [] {
      assert a + b == b;
    } else {
      assert (a + b)[0] == a[0];
      assert (a + b)[1..] == a[1..] + b;
      RemoveDotsConcat(a[1..], b);
    }
  }

  lemma {:induction false} RemoveDotsInterleave(username: string, gaps: seq<bool>)
    requires |username| >= 1 && |gaps| == |username| - 1
    ensures RemoveDots(Interleave(username, gaps)) == RemoveDots(username)
  {
    if |username| > 1 {
      var head, dot, tail := [username[0]], Dot(gaps[0]), Interleave(username[1..], gaps[1..]);
      RemoveDotsInterleave(username[1..], gaps[1..]);
      RemoveDotsConcat(head + dot, tail);
      RemoveDotsConcat(head, dot);
      assert RemoveDots(dot) == [];
      assert username == head + username[1..];
      RemoveDotsConcat(head, username[1..]);
    }
  }

  lemma {:induction false} RemoveDotsNone(s: string)
    requires '.' !in s
    ensures RemoveDots(s) == s
  {
    if s != [] {
      assert s[0] != '.';
      RemoveDotsNone(s[1..]);
    }
  }

  /** The oracle of `addDotsToUsername`: one coin per gap and a fallback
      position in [1, n - 1], or nothing at all for a username of length at
      most 1 (no random number is drawn then). */
  predicate DotOracleFits(username: string, coins: seq<bool>, forcedPos: int) {
    if |username| <= 1 then coins == []
    else |coins| == |username| - 1 && 1 <= forcedPos < |username|
  }

  /** The gaps that get a dot: the coins, or the fallback gap when no coin
      came up. */
  function InsertedGaps(username: string, coins: seq<bool>, forcedPos: int): (gaps: seq<bool>)
    requires DotOracleFits(username, coins, forcedPos) && |username| >= 2
    ensures |gaps| == |username| - 1
  {
    if true in coins then coins else OnlyAt(|username| - 1, forcedPos - 1)
  }

  /** What `addDotsToUsername` returns for the given coins and fallback. */
  function AddDots(username: string, coins: seq<bool>, forcedPos: int): string
    requires DotOracleFits(username, coins, forcedPos)
  {
    if |username| <= 1 then username
    else Interleave(username, InsertedGaps(username, coins, forcedPos))
  }

  /** The shape of a dotted username of length n >= 2: it starts and ends
      with the username's own first and last characters (no inserted dot is
      first or last), it has between 1 and n - 1 inserted dots (at most one
      per gap), and taking the inserted dots out gives the username back. */
  lemma AddDotsShape(username: string, coins: seq<bool>, forcedPos: int)
    requires DotOracleFits(username, coins, forcedPos) && |username| >= 2
    ensures var r := AddDots(username, coins, forcedPos);
      && r[0] == username[0]
      && r[|r| - 1] == username[|username| - 1]
      && |username| + 1 <= |r| <= 2 * |username| - 1
      && Undot(r, InsertedGaps(username, coins, forcedPos)) == username
      && RemoveDots(r) == RemoveDots(username)
      && ('.' !in username ==> RemoveDots(r) == username)
  {
    var gaps := InsertedGaps(username, coins, forcedPos);
    InterleaveShape(username, gaps);
    CountTrueBounds(gaps);
    if true !in coins {
      assert gaps[forcedPos - 1];
    }
    UndotInterleave(username, gaps);
    RemoveDotsInterleave(username, gaps);
    if '.' !in username {
      RemoveDotsNone(username);
    }
  }

  /** `addDotsToUsername`: copies the first character, then for each further
      character appends a dot when its coin came up and the character; if no
      dot was appended, rebuilds the result with one dot at `forcedPos`. */
  method AddDotsToUsername(username: string, coins: seq<bool>, forcedPos: int) returns (newUsername: string)
    requires DotOracleFits(username, coins, forcedPos)
    ensures |username| <= 1 ==> newUsername == username
    ensures newUsername == AddDots(username, coins, forcedPos)
  {
    if |username| <= 1 {
      return username;
    }
    newUsername := [username[0]];
    var dotsInserted := 0;
    for i := 1 to |username|
      invariant newUsername == Interleave(username[..i], coins[..i - 1])
      invariant dotsInserted == CountTrue(coins[..i - 1])
    {
      InterleaveSnoc(username[..i], coins[..i - 1], username[i], coins[i - 1]);
      CountTrueSnoc(coins[..i - 1], coins[i - 1]);
      assert username[..i + 1] == username[..i] + [username[i]];
      assert coins[..i] == coins[..i - 1] + [coins[i - 1]];
      if coins[i - 1] {
        newUsername := newUsername + ".";
        dotsInserted := dotsInserted + 1;
      }
      newUsername := newUsername + [username[i]];
    }
    assert username[..|username|] == username;
    assert coins[..|username| - 1] == coins;
    CountTrueBounds(coins);
    if dotsInserted == 0 && |username| > 1 {
      newUsername := username[..forcedPos] + "." + username[forcedPos..];
      InterleaveForced(username, forcedPos - 1);
    }
  }

  // ---------------------------------------------------------------------
  // generateAlias
  // ---------------------------------------------------------------------

  const DefaultLength: int := 12
  const DefaultSeparator: string := "-"
  const DefaultCaseStyle: string := "mixed"

  /** The options object of `generateAlias`; an absent optional property
      takes its destructuring default. */
  datatype AliasRequest = AliasRequest(
    primaryEmail: string,
    description: string,
    length: Option<int>,
    separator: Option<string>,
    caseStyle: Option<string>)
  {
    function Length(): int { length.GetOr(DefaultLength) }
    function Separator(): string { separator.GetOr(DefaultSeparator) }
    function CaseStyle(): string { caseStyle.GetOr(DefaultCaseStyle) }
  }

  /** The values the calls to `Math.random()` produce during one call. */
  datatype Oracle = Oracle(picks: seq<nat>, coins: seq<bool>, forcedPos: int)

  predicate OracleFits(req: AliasRequest, o: Oracle) {
    var parts := Split(req.primaryEmail, '@');
    if |parts| != 2 then PicksFit(5, "lowercase", o.picks)
    else DotOracleFits(parts[0], o.coins, o.forcedPos) && PicksFit(req.Length(), req.CaseStyle(), o.picks)
  }

  /** `generateAlias`. */
  function GenerateAlias(req: AliasRequest, o: Oracle): string
    requires OracleFits(req, o)
  {
    var parts := Split(req.primaryEmail, '@');
    if |parts| != 2 then
      "invalid.email." + RandomString(5, "lowercase", o.picks) + "@error.com"
    else
      var username, domain := parts[0], parts[1];
      AddDots(username, o.coins, o.forcedPos) + "+" + SanitizeDescription(req.description)
        + req.Separator() + RandomString(req.Length(), req.CaseStyle(), o.picks) + "@" + domain
  }

  /** A primary email without exactly one '@' gives
      "invalid.email." + five characters from a-z0-9 + "@error.com". */
  lemma GenerateAliasInvalidEmail(req: AliasRequest, o: Oracle)
    requires OracleFits(req, o) && Occurrences(req.primaryEmail, '@') != 1
    ensures var r := GenerateAlias(req, o);
      && |r| == 29
      && r[..14] == "invalid.email."
      && r[19..] == "@error.com"
      && forall i :: 14 <= i < 19 ==> IsAsciiLower(r[i]) || IsAsciiDigit(r[i])
  {
    var rs := RandomString(5, "lowercase", o.picks);
    RandomStringClasses(5, "lowercase", o.picks);
    var r := GenerateAlias(req, o);
    assert r == "invalid.email." + rs + "@error.com";
    assert forall i :: 14 <= i < 19 ==> r[i] == rs[i - 14];
  }

  /** For a primary email `username@domain` the alias is the dotted username,
      '+', the sanitised description, the separator, the random string, '@'
      and the domain, unchanged. */
  lemma GenerateAliasParts(req: AliasRequest, o: Oracle, username: string, domain: string)
    requires req.primaryEmail == username + "@" + domain && '@' !in username && '@' !in domain
    requires OracleFits(req, o)
    ensures Split(req.primaryEmail, '@') == [username, domain]
    ensures DotOracleFits(username, o.coins, o.forcedPos) && PicksFit(req.Length(), req.CaseStyle(), o.picks)
    ensures GenerateAlias(req, o) ==
      AddDots(username, o.coins, o.forcedPos) + "+" + SanitizeDescription(req.description)
        + req.Separator() + RandomString(req.Length(), req.CaseStyle(), o.picks) + "@" + domain
  {
    SplitAround(username, domain, '@');
  }

  /** The defaults are length 12, separator '-' and the mixed alphabet, and
      leaving an option out is the same as passing its default. */
  lemma GenerateAliasDefaults(req: AliasRequest, o: Oracle)
    requires OracleFits(req, o)
    ensures req.length.None? ==> req.Length() == 12
    ensures req.separator.None? ==> req.Separator() == "-"
    ensures req.caseStyle.None? ==> Alphabet(req.CaseStyle()) == LowerChars + UpperChars
    ensures var explicit := req.(length := Some(req.Length()), separator := Some(req.Separator()),
                                 caseStyle := Some(req.CaseStyle()));
      OracleFits(explicit, o) && GenerateAlias(req, o) == GenerateAlias(explicit, o)
  {
  }

  /** The alias always contains exactly one '@' when the separator has none,
      whatever the primary email looks like. */
  lemma GenerateAliasSingleAt(req: AliasRequest, o: Oracle)
    requires OracleFits(req, o) && '@' !in req.Separator()
    ensures Occurrences(GenerateAlias(req, o), '@') == 1
  {
    if |Split(req.primaryEmail, '@')| != 2 {
      var rs := RandomString(5, "lowercase", o.picks);
      NoAtInRandomString(5, "lowercase", o.picks);
      assert GenerateAlias(req, o) == ("invalid.email." + rs) + "@" + "error.com";
      SingleAt("invalid.email." + rs, "error.com");
    } else {
      SingleAtWellFormed(req, o);
    }
  }

  lemma SingleAtWellFormed(req: AliasRequest, o: Oracle)
    requires OracleFits(req, o) && '@' !in req.Separator()
    requires |Split(req.primaryEmail, '@')| == 2
    ensures Occurrences(GenerateAlias(req, o), '@') == 1
  {
    var parts := Split(req.primaryEmail, '@');
    var username, domain := parts[0], parts[1];
    var dotted := AddDots(username, o.coins, o.forcedPos);
    var sanitized := SanitizeDescription(req.description);
    var rs := RandomString(req.Length(), req.CaseStyle(), o.picks);
    var local := dotted + "+" + sanitized + req.Separator() + rs;
    assert GenerateAlias(req, o) == local + "@" + domain;
    SplitOnce(req.primaryEmail, '@');
    NoAtInAddDots(username, o.coins, o.forcedPos);
    NoAtInSanitized(req.description);
    NoAtInRandomString(req.Length(), req.CaseStyle(), o.picks);
    SingleAt(local, domain);
  }

  lemma NoAtInAddDots(username: string, coins: seq<bool>, forcedPos: int)
    requires DotOracleFits(username, coins, forcedPos) && '@' !in username
    ensures '@' !in AddDots(username, coins, forcedPos)
  {
    if |username| >= 2 {
      InterleaveShape(username, InsertedGaps(username, coins, forcedPos));
    }
  }

  lemma NoAtInSanitized(description: string)
    ensures '@' !in SanitizeDescription(description)
  {
    SanitizeCharacters(description);
  }

  lemma SingleAt(before: string, after: string)
    requires '@' !in before && '@' !in after
    ensures Occurrences(before + "@" + after, '@') == 1
  {
    OccurrencesConcat(before + "@", after, '@');
    OccurrencesConcat(before, "@", '@');
  }

  lemma NoAtInRandomString(length: int, caseStyle: string, picks: seq<nat>)
    requires PicksFit(length, caseStyle, picks)
    ensures '@' !in RandomString(length, caseStyle, picks)
  {
    if '@' in Alphabet(caseStyle) {
      AlphabetClasses(caseStyle, '@');
    }
  }
}
