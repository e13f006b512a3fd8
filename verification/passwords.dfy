/**
 * The password generator (`generate_strong_password`). The cryptographically
 * secure random source is an oracle: `choice(i)` is the alphabet position
 * `secrets.choice` picks on its `i`-th draw.
 */
module PasswordGenerator {

  /** The characters from `lo` to `hi` inclusive, in code point order. */
  function CharRange(lo: char, hi: char): (r: string)
    requires lo <= hi <= '~'
    ensures |r| == hi as int - lo as int + 1
    ensures forall i :: 0 <= i < |r| ==> r[i] as int == lo as int + i
  {
    seq(hi as int - lo as int + 1, i requires 0 <= i <= hi as int - lo as int => (lo as int + i) as char)
  }

  /**
   * `string.ascii_letters + string.digits + string.punctuation`: lower case,
   * upper case, digits, then the four runs of ASCII punctuation.
   */
  const Alphabet: string :=
    CharRange('a', 'z') + CharRange('A', 'Z') + CharRange('0', '9')
    + CharRange('!', '/') + CharRange(':', '@') + CharRange('[', '`') + CharRange('{', '~')

  const DefaultLength: int := 16

  /** A range holds exactly the characters between its ends. */
  lemma RangeMembers(lo: char, hi: char)
    requires lo <= hi <= '~'
    ensures forall c :: c in CharRange(lo, hi) <==> lo <= c <= hi
  {
    var r := CharRange(lo, hi);
    forall c | lo <= c <= hi
      ensures c in r
    {
      assert r[c as int - lo as int] == c;
    }
  }

  /** The alphabet is exactly the 94 visible ASCII characters, space excluded. */
  lemma AlphabetIsVisibleAscii()
    ensures |Alphabet| == 94
    ensures forall c :: c in Alphabet <==> '!' <= c <= '~'
  {
    RangeMembers('a', 'z');
    RangeMembers('A', 'Z');
    RangeMembers('0', '9');
    RangeMembers('!', '/');
    RangeMembers(':', '@');
    RangeMembers('[', '`');
    RangeMembers('{', '~');
  }

  /**
   * `''.join(secrets.choice(alphabet) for _ in range(length))`: exactly
   * `length` characters (none for a negative length), the `i`-th being the
   * `i`-th draw, so every one a visible ASCII character.
   */
  method GenerateStrongPassword(length: int, choice: nat -> nat) returns (pwd: string)
    requires forall i :: 0 <= i < length ==> choice(i) < |Alphabet|
    ensures |pwd| == if length < 0 then 0 else length
    ensures forall i :: 0 <= i < |pwd| ==> pwd[i] == Alphabet[choice(i)]
    ensures forall i :: 0 <= i < |pwd| ==> '!' <= pwd[i] <= '~'
  {
    AlphabetIsVisibleAscii();
    pwd := "";
    var i := 0;
    while i < length
      invariant 0 <= i <= (if length < 0 then 0 else length)
      invariant |pwd| == i
      invariant forall j :: 0 <= j < i ==> pwd[j] == Alphabet[choice(j)]
    {
      pwd := pwd + [Alphabet[choice(i)]];
      i := i + 1;
    }
  }

  /** `generate_strong_password()` with its default length: sixteen visible ASCII characters. */
  method GenerateDefaultPassword(choice: nat -> nat) returns (pwd: string)
    requires forall i :: 0 <= i < DefaultLength ==> choice(i) < |Alphabet|
    ensures |pwd| == 16
    ensures forall i :: 0 <= i < |pwd| ==> pwd[i] == Alphabet[choice(i)] && '!' <= pwd[i] <= '~'
  {
    pwd := GenerateStrongPassword(DefaultLength, choice);
  }
}
