/** The overwrite question that `compress_video` asks when the output already exists. */
module Overwrite {

  /** `str.lower` on one character, for ASCII letters. */
  function LowerChar(c: char): (l: char)
    ensures 'A' <= c <= 'Z' ==> l as int == c as int + 32
    ensures !('A' <= c <= 'Z') ==> l == c
  {
    if 'A' <= c <= 'Z' then (c as int + 32) as char else c
  }

  function Lower(s: string): (r: string)
    ensures |r| == |s|
    ensures forall i :: 0 <= i < |s| ==> r[i] == LowerChar(s[i])
  {
    seq(|s|, i requires 0 <= i < |s| => LowerChar(s[i]))
  }

  /** `overwrite.lower() != 'y'` is false: the user agreed. */
  predicate Confirms(reply: string) {
    Lower(reply) == "y"
  }

  /** Only a one-letter reply, `y` or `Y`, agrees; `yes`, ` y` and the empty reply all decline. */
  lemma ConfirmsExactly(reply: string)
    ensures Confirms(reply) <==> reply == "y" || reply == "Y"
  {
    if Confirms(reply) {
      assert |reply| == 1;
      assert LowerChar(reply[0]) == 'y';
      assert reply == [reply[0]];
    }
    if reply == "Y" {
      assert Lower(reply)[0] == 'y';
    }
  }

  /** Go on (deleting the existing output when there was one), or stop before anything is launched. */
  datatype Decision = Proceed(removeExisting: bool) | Cancel

  /** The prompt of `compress_video`: asked only when the output exists. */
  function Decide(outputExists: bool, reply: string): (d: Decision)
    ensures d.Cancel? <==> outputExists && reply != "y" && reply != "Y"
    ensures d.Proceed? ==> d.removeExisting == outputExists
  {
    ConfirmsExactly(reply);
    if outputExists then
      if !Confirms(reply) then Cancel else Proceed(true)
    else Proceed(false)
  }
}
