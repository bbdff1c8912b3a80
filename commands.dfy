/**
  The command lines the facade writes to the subprocess. A message command
  is "msg", the destination with its spaces turned into underscores, and the
  message, joined by single spaces; since the destination then holds no
  space, the subprocess can take it back apart at the first space after
  "msg ", which `ParseMessage` does.
*/
module Commands {
  import opened Wrappers
  import opened Text

  const ListContactsCommand := "contact_list"
  const QuitCommand := "quit"

  /** A contact name as the subprocess spells it: spaces become underscores. */
  function PeerName(dest: string): (r: string)
    ensures |r| == |dest|
    ensures Free(r, ' ')
    ensures forall i :: 0 <= i < |dest| && dest[i] != ' ' ==> r[i] == dest[i]
  {
    Replace(dest, ' ', '_')
  }

  /** The command that sends `message` to `dest`. */
  function MessageCommand(dest: string, message: string): (r: string)
    ensures r == "msg " + PeerName(dest) + " " + message
  {
    JoinThree("msg", PeerName(dest), message, " ");
    Join(["msg", PeerName(dest), message], " ")
  }

  /** The position of the first space at or after `from`, if any. */
  function FirstSpace(s: string, from: nat): (r: Option<nat>)
    ensures r.Some? ==> from <= r.value < |s| && s[r.value] == ' '
    ensures r.Some? ==> forall j :: from <= j < r.value ==> s[j] != ' '
    ensures r.None? ==> forall j :: from <= j < |s| ==> s[j] != ' '
    decreases |s| - from
  {
    if |s| <= from then None
    else if s[from] == ' ' then Some(from)
    else FirstSpace(s, from + 1)
  }

  /** How a "msg" command line reads: the destination up to the next space, then the message. */
  function ParseMessage(command: string): (r: Option<(string, string)>) {
    if !HasPrefix(command, "msg ") then None
    else match FirstSpace(command, 4)
      case None => None
      case Some(p) => Some((command[4..p], command[p + 1..]))
  }

  /** The destination and the message can be read back from the command, whatever they hold. */
  lemma {:induction false} MessageCommandParses(dest: string, message: string)
    ensures ParseMessage(MessageCommand(dest, message)) == Some((PeerName(dest), message))
  {
    var peer := PeerName(dest);
    var c := MessageCommand(dest, message);
    var p := 4 + |peer|;
    assert c[p] == ' ';
    forall j | 4 <= j < p ensures c[j] != ' ' {
      assert c[j] == peer[j - 4];
    }
    assert FirstSpace(c, 4) == Some(p) by {
      FirstSpaceAt(c, 4, p);
    }
    assert c[4..p] == peer;
    assert c[p + 1..] == message;
  }

  /** The first space is found where it is. */
  lemma {:induction false} FirstSpaceAt(s: string, from: nat, p: nat)
    requires from <= p < |s| && s[p] == ' '
    requires forall j :: from <= j < p ==> s[j] != ' '
    ensures FirstSpace(s, from) == Some(p)
    decreases p - from
  {
    if from < p {
      FirstSpaceAt(s, from + 1, p);
    }
  }
}
