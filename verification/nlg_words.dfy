/** The number and ordinal words of the text generator. Each comes with
    its inverse, so that the words can be told apart by reading them
    back. */
module NumberWords {
  import opened Wrappers

  /** `GetDisplayStringForNumber`. */
  function NumberWord(n: int): string {
    match n
    case 0 => "zero"
    case 1 => "one"
    case 2 => "two"
    case 3 => "three"
    case 4 => "four"
    case 5 => "five"
    case 6 => "six"
    case 7 => "seven"
    case 8 => "eight"
    case 9 => "nine"
    case 10 => "ten"
    case 11 => "eleven"
    case 12 => "twelve"
    case _ => "many"
  }

  /** The number a word could name, told apart by length and the first
      two letters. */
  function NumberCandidate(w: string): Option<int> {
    if |w| == 3 then
      if w[0] == 'o' then Some(1) else if w[0] == 's' then Some(6)
      else if w[1] == 'w' then Some(2) else Some(10)
    else if |w| == 4 then
      if w[0] == 'z' then Some(0) else if w[0] == 'n' then Some(9)
      else if w[1] == 'o' then Some(4) else Some(5)
    else if |w| == 5 then
      if w[0] == 't' then Some(3) else if w[0] == 's' then Some(7) else Some(8)
    else if |w| == 6 then
      if w[0] == 'e' then Some(11) else Some(12)
    else None
  }

  /** Reads a number word back; `None` for "many" and for any other
      string. */
  function NumberValue(w: string): (r: Option<int>)
    ensures r.Some? ==> NumberWord(r.value) == w && 0 <= r.value <= 12
  {
    match NumberCandidate(w)
    case Some(n) => if NumberWord(n) == w then Some(n) else None
    case None => None
  }

  /** The numbers 0..12 have their own words, which read back to them;
      every other number is "many". */
  lemma NumberWordRoundTrip(n: int)
    ensures 0 <= n <= 12 ==> NumberValue(NumberWord(n)) == Some(n)
    ensures NumberWord(n) == "many" <==> n < 0 || n > 12
  {
  }

  /** Different numbers in 0..12 get different words. */
  lemma NumberWordsDistinct(a: int, b: int)
    requires 0 <= a <= 12 && 0 <= b <= 12 && a != b
    ensures NumberWord(a) != NumberWord(b)
  {
    NumberWordRoundTrip(a);
    NumberWordRoundTrip(b);
  }

  /** `GetDisplayStringForObjectIndex`, spelling included. */
  function OrdinalWord(n: int, groupSize: int): string {
    match n
    case 0 => "zeroth"
    case 1 => "first"
    case 2 => if groupSize == 2 then "other" else "second"
    case 3 => "third"
    case 4 => "fourth"
    case 5 => "fiveth"
    case 6 => "sixth"
    case 7 => "seventh"
    case 8 => "eighth"
    case 9 => "nineth"
    case 10 => "tenth"
    case 11 => "eleventh"
    case 12 => "twelveth"
    case _ => "some"
  }

  /** The position an ordinal word could name. */
  function OrdinalCandidate(w: string): Option<int> {
    if |w| == 5 then
      if w[0] == 'f' then Some(1) else if w[0] == 'o' then Some(2) else if w[0] == 's' then Some(6)
      else if w[1] == 'h' then Some(3) else Some(10)
    else if |w| == 6 then
      if w[0] == 'z' then Some(0) else if w[0] == 's' then Some(2) else if w[0] == 'e' then Some(8)
      else if w[0] == 'n' then Some(9) else if w[1] == 'o' then Some(4) else Some(5)
    else if |w| == 7 then Some(7)
    else if |w| == 8 then (if w[0] == 'e' then Some(11) else Some(12))
    else None
  }

  /** Reads an ordinal word of a group of the given size back. */
  function OrdinalValue(w: string, groupSize: int): (r: Option<int>)
    ensures r.Some? ==> OrdinalWord(r.value, groupSize) == w && 0 <= r.value <= 12
  {
    match OrdinalCandidate(w)
    case Some(n) => if OrdinalWord(n, groupSize) == w then Some(n) else None
    case None => None
  }

  /** Within a group, positions 0..12 have their own ordinals, which read
      back to them; "other" is the second of exactly two, and positions
      beyond 0..12 are all "some". */
  lemma OrdinalWordRoundTrip(n: int, groupSize: int)
    ensures 0 <= n <= 12 ==> OrdinalValue(OrdinalWord(n, groupSize), groupSize) == Some(n)
    ensures OrdinalWord(n, groupSize) == "other" <==> n == 2 && groupSize == 2
    ensures OrdinalWord(n, groupSize) == "some" <==> n < 0 || n > 12
  {
  }

  /** Two different positions 0..12 of one group get different ordinals. */
  lemma OrdinalWordsDistinct(a: int, b: int, groupSize: int)
    requires 0 <= a <= 12 && 0 <= b <= 12 && a != b
    ensures OrdinalWord(a, groupSize) != OrdinalWord(b, groupSize)
  {
    OrdinalWordRoundTrip(a, groupSize);
    OrdinalWordRoundTrip(b, groupSize);
  }
}
