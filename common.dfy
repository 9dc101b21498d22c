/** The string-to-boolean parser used for the `--defaults` command-line flag. */
module Common {
  import opened Wrappers

  /** The `ValueError` raised for a string that is neither a true nor a false word;
      it carries the lower-cased input, as the message does. */
  datatype Error = InvalidTruthValue(val: string)

  /** The words read as true and as false, all in lower case. */
  const TruthyWords: set<string> := {"y", "yes", "t", "true", "on", "1"}
  const FalsyWords: set<string> := {"n", "no", "f", "false", "off", "0"}

  /** ASCII lower-casing of one character. */
  function LowerChar(c: char): char
  {
    if 'A' <= c <= 'Z' then (c as int + 32) as char else c
  }

  /** ASCII upper-casing of one character. */
  function UpperChar(c: char): char
  {
    if 'a' <= c <= 'z' then (c as int - 32) as char else c
  }

  /** `str.lower()`, restricted to ASCII letters. */
  function Lower(s: string): (r: string)
    ensures |r| == |s|
    ensures forall i :: 0 <= i < |s| ==> r[i] == LowerChar(s[i])
  {
    seq(|s|, i requires 0 <= i < |s| => LowerChar(s[i]))
  }

  /** `str.upper()`, restricted to ASCII letters. */
  function Upper(s: string): (r: string)
    ensures |r| == |s|
    ensures forall i :: 0 <= i < |s| ==> r[i] == UpperChar(s[i])
  {
    seq(|s|, i requires 0 <= i < |s| => UpperChar(s[i]))
  }

  /** `strtobool`: the lower-cased input decides; an unknown word is an error. */
  function StrToBool(val: string): (r: Result<bool, Error>)
    ensures r == Ok(true) <==> Lower(val) in TruthyWords
    ensures r == Ok(false) <==> Lower(val) in FalsyWords
    ensures r.Err? <==> Lower(val) !in TruthyWords + FalsyWords
    ensures r.Err? ==> r.error == InvalidTruthValue(Lower(val))
  {
    var v := Lower(val);
    if v in TruthyWords then Ok(true)
    else if v in FalsyWords then Ok(false)
    else Err(InvalidTruthValue(v))
  }

  /** No word is both true and false, so the order of the two tests does not matter. */
  lemma WordSetsDisjoint()
    ensures TruthyWords !! FalsyWords
  {
  }

  /** Every listed word is already in lower case, so each is accepted exactly as written. */
  lemma WordsAreLowerCase(w: string)
    requires w in TruthyWords + FalsyWords
    ensures Lower(w) == w
    ensures StrToBool(w) == Ok(w in TruthyWords)
  {
  }

  /** Lower-casing forgets the case the input was written in. */
  lemma LowerOfUpper(s: string)
    ensures Lower(Upper(s)) == Lower(s)
  {
  }

  /** Parsing is case-insensitive: upper-casing the input never changes the answer
      (so "TRUE" is true and "Off" is false). */
  lemma StrToBoolIgnoresCase(val: string)
    ensures StrToBool(Upper(val)) == StrToBool(val)
  {
    LowerOfUpper(val);
  }

  /** The upper-case spelling of every listed word parses to the same boolean. */
  lemma UpperWordsAccepted(w: string)
    requires w in TruthyWords + FalsyWords
    ensures StrToBool(Upper(w)) == Ok(w in TruthyWords)
  {
    StrToBoolIgnoresCase(w);
    WordsAreLowerCase(w);
  }
}
