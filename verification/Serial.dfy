/** drivers/serial.c: COM1 as the stream of characters sent. */
module Serial {

  /** A carriage return goes before every newline. */
  function LineEnds(s: string): string
  {
    if s == "" then "" else LineEnds(s[..|s| - 1]) + if s[|s| - 1] == '\n' then "\r\n" else [s[|s| - 1]]
  }

  lemma {:induction false} LineEndsAppend(s: string, t: string)
    ensures LineEnds(s + t) == LineEnds(s) + LineEnds(t)
  {
    if t == "" {
      assert s + t == s;
    } else {
      assert (s + t)[..|s + t| - 1] == s + t[..|t| - 1];
      LineEndsAppend(s, t[..|t| - 1]);
    }
  }

  lemma {:induction false} PlainText(s: string)
    requires '\n' !in s
    ensures LineEnds(s) == s
  {
    if s != "" { PlainText(s[..|s| - 1]); }
  }

  lemma NewlineAfter(s: string)
    ensures LineEnds(s + "\n") == LineEnds(s) + "\r\n"
  {
    assert (s + "\n")[..|s|] == s;
  }

  class Com1 {
    var sent: string

    constructor ()
      ensures sent == ""
    {
      sent := "";
    }

    method PutChar(c: char)
      modifies this
      ensures sent == old(sent) + [c]
    {
      sent := sent + [c];
    }

    /** serial_puts, on memory that holds s and its terminator. */
    method Puts(str: array<char>, ghost s: string)
      requires |s| < str.Length && '\0' !in s && str[..|s| + 1] == s + "\0"
      modifies this
      ensures sent == old(sent) + LineEnds(s)
    {
      var i := 0;
      while str[i] != '\0'
        invariant 0 <= i <= |s| && str[..|s| + 1] == s + "\0"
        invariant sent == old(sent) + LineEnds(s[..i])
        decreases |s| - i
      {
        assert str[i] == str[..|s| + 1][i] == (s + "\0")[i];
        assert s[..i + 1][..i] == s[..i];
        if str[i] == '\n' { PutChar('\r'); }
        PutChar(str[i]);
        i := i + 1;
      }
      assert str[i] == (s + "\0")[i];
      assert s[..i] == s;
    }
  }
}
