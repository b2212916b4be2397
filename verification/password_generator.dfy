/**
 * `passwordGenerator.js`: random passwords drawn from a charset of enabled
 * character classes, and the 0..5 strength score. The random words
 * `crypto.getRandomValues` fills are a parameter.
 */
module PasswordGenerator {
  import opened Types

  const Lowercase: string := "abcdefghijklmnopqrstuvwxyz"
  const Uppercase: string := "ABCDEFGHIJKLMNOPQRSTUVWXYZ"
  const Numbers: string := "0123456789"
  const Symbols: string := "!@#$%^&*()_+-=[]{}|;:,.<>?"

  /** The options object; every class is enabled unless switched off. */
  datatype Options = Options(lowercase: bool, uppercase: bool, numbers: bool, symbols: bool)

  const DefaultOptions := Options(true, true, true, true)

  /** The charset: the enabled classes concatenated in the order lower, upper, digits, symbols. */
  function Charset(o: Options): string
  {
    (if o.lowercase then Lowercase else "")
    + (if o.uppercase then Uppercase else "")
    + (if o.numbers then Numbers else "")
    + (if o.symbols then Symbols else "")
  }

  predicate IsLower(c: char) { 'a' <= c <= 'z' }
  predicate IsUpper(c: char) { 'A' <= c <= 'Z' }
  predicate IsDigit(c: char) { '0' <= c <= '9' }
  /** Matched by `[^a-zA-Z0-9]`. */
  predicate IsOther(c: char) { !IsLower(c) && !IsUpper(c) && !IsDigit(c) }

  /** With every class enabled, the charset has 26 + 26 + 10 + 26 = 88 characters. */
  lemma DefaultCharsetLength()
    ensures |Charset(DefaultOptions)| == 88
  {}

  /** The charset holds a character exactly when the class that character belongs to is enabled. */
  lemma CharsetClasses(o: Options, c: char)
    ensures c in Charset(o) <==>
      || (o.lowercase && IsLower(c)) || (o.uppercase && IsUpper(c))
      || (o.numbers && IsDigit(c)) || (o.symbols && c in Symbols)
  {
    ClassMembers(c);
  }

  /** Each class string holds exactly its class; every symbol is outside the letters and digits. */
  lemma ClassMembers(c: char)
    ensures c in Lowercase <==> IsLower(c)
    ensures c in Uppercase <==> IsUpper(c)
    ensures c in Numbers <==> IsDigit(c)
    ensures c in Symbols ==> IsOther(c)
  {
    LowercaseRun(c);
    UppercaseRun(c);
    NumbersRun(c);
    SymbolsOther(c);
  }

  lemma LowercaseRun(c: char)
    ensures c in Lowercase <==> IsLower(c)
  {
    LetterRange(Lowercase, 'a', c);
  }

  lemma UppercaseRun(c: char)
    ensures c in Uppercase <==> IsUpper(c)
  {
    LetterRange(Uppercase, 'A', c);
  }

  lemma NumbersRun(c: char)
    ensures c in Numbers <==> IsDigit(c)
  {
    LetterRange(Numbers, '0', c);
  }

  lemma SymbolsOther(c: char)
    ensures c in Symbols ==> IsOther(c)
  {
  }

  /** A run of consecutive characters holds exactly the characters between its ends. */
  lemma LetterRange(run: string, first: char, c: char)
    requires |run| > 0 && run[0] == first
    requires forall k :: 0 <= k < |run| ==> run[k] as int == first as int + k
    ensures c in run <==> first <= c && c as int < first as int + |run|
  {
    if first <= c && c as int < first as int + |run| {
      assert run[c as int - first as int] == c;
    }
  }

  /** `charset.charAt(i)`: the character at `i`, or the empty string past the end. */
  function CharAt(s: string, i: nat): (r: string)
    ensures |r| <= 1
  {
    if i < |s| then [s[i]] else ""
  }

  /**
   * `generate(length, options)` with the words `getRandomValues` put in the
   * `Uint32Array`: character `i` is `charset[random[i] % |charset|]`. With
   * every class switched off the index is `NaN`, `charAt` gives the empty
   * string, and so does the generator.
   */
  method Generate(length: nat := 16, o: Options := DefaultOptions, random: seq<nat>) returns (password: string)
    requires |random| == length
    ensures |Charset(o)| > 0 ==> |password| == length
    ensures |Charset(o)| > 0 ==> forall i :: 0 <= i < length ==> password[i] == Charset(o)[random[i] % |Charset(o)|]
    ensures forall i :: 0 <= i < |password| ==> password[i] in Charset(o)
    ensures |Charset(o)| == 0 ==> password == ""
  {
    var charset := Charset(o);
    password := "";
    var i := 0;
    while i < length
      invariant 0 <= i <= length
      invariant |charset| > 0 ==> |password| == i
      invariant |charset| > 0 ==> forall j :: 0 <= j < i ==> password[j] == charset[random[j] % |charset|]
      invariant |charset| == 0 ==> password == ""
    {
      if |charset| == 0 {
        password := password + CharAt(charset, 0);
      } else {
        password := password + CharAt(charset, random[i] % |charset|);
      }
      i := i + 1;
    }
  }

  function Bit(b: bool): nat { if b then 1 else 0 }

  predicate HasLower(s: string) { exists k :: 0 <= k < |s| && IsLower(s[k]) }
  predicate HasUpper(s: string) { exists k :: 0 <= k < |s| && IsUpper(s[k]) }
  predicate HasDigit(s: string) { exists k :: 0 <= k < |s| && IsDigit(s[k]) }
  predicate HasOther(s: string) { exists k :: 0 <= k < |s| && IsOther(s[k]) }

  /** How many of the four character classes appear in `s`. */
  function ClassCount(s: string): (r: nat)
    ensures r <= 4
  {
    Bit(HasLower(s)) + Bit(HasUpper(s)) + Bit(HasDigit(s)) + Bit(HasOther(s))
  }

  /** `calculateStrength(password)`: one point per criterion met, capped at 5. */
  function CalculateStrength(password: string): (r: nat)
    ensures r <= 5
  {
    var strength := Bit(|password| >= 8) + Bit(|password| >= 12) + ClassCount(password);
    Min(strength, 5)
  }

  /** Every character belongs to exactly one class, so a non-empty password shows at least one. */
  lemma ClassCountPositive(s: string)
    ensures ClassCount(s) == 0 <==> s == ""
  {
    if s != "" {
      assert IsLower(s[0]) || IsUpper(s[0]) || IsDigit(s[0]) || IsOther(s[0]);
    }
  }

  /** The score is 0 exactly for the empty password. */
  lemma StrengthZeroIff(password: string)
    ensures CalculateStrength(password) == 0 <==> password == ""
  {
    ClassCountPositive(password);
  }

  /** Below 8 characters only the classes count, so the score is the number of classes, at most 4. */
  lemma ShortStrength(password: string)
    requires |password| < 8
    ensures CalculateStrength(password) == ClassCount(password) <= 4
  {}

  /**
   * The top score takes 12 characters and three classes, or 8 to 11
   * characters and all four classes.
   */
  lemma FullStrengthIff(password: string)
    ensures CalculateStrength(password) == 5 <==>
      (|password| >= 12 && ClassCount(password) >= 3) || (|password| >= 8 && ClassCount(password) == 4)
  {}
}
