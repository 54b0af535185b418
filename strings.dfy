// The NUL-terminated C string length of src/String.cpp.  A C string is the
// character sequence its pointer can reach; the source reads until it meets
// '\0', so the caller must provide one within reach.

module Strings {

  /** `s` holds a terminator: the source's loop stops inside it. */
  predicate HasTerminator(s: seq<char>)
  {
    exists i :: 0 <= i < |s| && s[i] == '\0'
  }

  /** No character of `t` is the terminator. */
  predicate NulFree(t: seq<char>)
  {
    forall i :: 0 <= i < |t| ==> t[i] != '\0'
  }

  /** The index of the first terminator: the length of the C string `s` points to. */
  function FirstNul(s: seq<char>): (i: nat)
    requires HasTerminator(s)
    ensures i < |s| && s[i] == '\0'
    ensures forall j :: 0 <= j < i ==> s[j] != '\0'
  {
    if s[0] == '\0' then 0
    else
      assert HasTerminator(s[1..]) by {
        var k :| 0 <= k < |s| && s[k] == '\0';
        assert s[1..][k - 1] == '\0';
      }
      1 + FirstNul(s[1..])
  }

  /** CStr_GetLength: count characters until the terminator. */
  method CStrGetLength(s: seq<char>) returns (size: nat)
    requires HasTerminator(s)
    ensures size == FirstNul(s)
    ensures size < |s| && s[size] == '\0' && NulFree(s[..size])
  {
    size := 0;
    while s[size] != '\0'
      invariant size <= FirstNul(s)
      decreases FirstNul(s) - size
    {
      size := size + 1;
    }
  }

  /** Any terminator with only non-terminators before it is the first one. */
  lemma FirstNulUnique(s: seq<char>, i: nat)
    requires i < |s| && s[i] == '\0' && NulFree(s[..i])
    ensures HasTerminator(s) && FirstNul(s) == i
  {
    assert forall j :: 0 <= j < i ==> s[..i][j] == s[j];
  }

  /** A C string built by writing the characters of `t` and then '\0' has length |t|, whatever follows. */
  lemma LengthOfTerminated(t: seq<char>, rest: seq<char>)
    requires NulFree(t)
    ensures HasTerminator(t + ['\0'] + rest) && FirstNul(t + ['\0'] + rest) == |t|
  {
    var s := t + ['\0'] + rest;
    assert s[..|t|] == t;
    FirstNulUnique(s, |t|);
  }

  /** The empty C string has length 0. */
  lemma EmptyStringHasLengthZero(rest: seq<char>)
    ensures HasTerminator(['\0'] + rest) && FirstNul(['\0'] + rest) == 0
  {
    assert (['\0'] + rest)[0] == '\0';
  }

  /** Bytes after the first terminator never change the length. */
  lemma LengthIgnoresTail(s: seq<char>, rest: seq<char>)
    requires HasTerminator(s)
    ensures HasTerminator(s + rest) && FirstNul(s + rest) == FirstNul(s)
  {
    var f := FirstNul(s);
    assert (s + rest)[..f] == s[..f];
    FirstNulUnique(s + rest, f);
  }
}
