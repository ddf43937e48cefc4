/** The login command (send_login_command) and the unused password-reply
    recogniser (isPasswordAccepted). */
module Login {
  import opened Common
  import opened Text

  /** sdstrim removes spaces and tabs from both ends of the command. */
  const LoginBlanks: set<char> := {' ', '\t'}
  /** The first nine characters of the trimmed command name the recipient. */
  const RecipientLength: nat := 9

  datatype LoginSplit = LoginSplit(recipient: string, body: string)

  /** send_login_command: a trimmed command shorter than nine characters sends
      nothing (the program only logs it); otherwise the recipient is its first
      nine characters and the message body the rest, so that the two together
      give back the trimmed command. */
  function SplitLogin(command: string): (r: Option<LoginSplit>)
    ensures r.Some? <==> |Trim(command, LoginBlanks)| >= RecipientLength
    ensures r.Some? ==> |r.value.recipient| == RecipientLength
    ensures r.Some? ==> r.value.recipient + r.value.body == Trim(command, LoginBlanks)
  {
    var c := Trim(command, LoginBlanks);
    if |c| >= RecipientLength then
      assert c[..RecipientLength] + c[RecipientLength..] == c;
      Some(LoginSplit(c[..RecipientLength], c[RecipientLength..]))
    else None
  }

  /** The program stores the trimmed command back into its configuration; a later
      connect splits the stored command exactly as the first one did. */
  lemma SplitLoginStable(command: string)
    ensures SplitLogin(Trim(command, LoginBlanks)) == SplitLogin(command)
  {
    TrimIdempotent(command, LoginBlanks);
  }

  const PasswordPhrases: seq<string> := ["Password accepted", "You are now identified", "I recognize you"]

  /** isPasswordAccepted: the message contains one of the three phrases. */
  function IsPasswordAccepted(message: string): (r: bool)
    ensures r <==> exists k :: 0 <= k < |PasswordPhrases| && Contains(message, PasswordPhrases[k])
  {
    var found := Find(message, PasswordPhrases[0]).Some?
              || Find(message, PasswordPhrases[1]).Some?
              || Find(message, PasswordPhrases[2]).Some?;
    assert found ==> exists k :: 0 <= k < |PasswordPhrases| && Contains(message, PasswordPhrases[k]) by {
      if Find(message, PasswordPhrases[0]).Some? {
        assert Contains(message, PasswordPhrases[0]);
      } else if Find(message, PasswordPhrases[1]).Some? {
        assert Contains(message, PasswordPhrases[1]);
      } else if Find(message, PasswordPhrases[2]).Some? {
        assert Contains(message, PasswordPhrases[2]);
      }
    }
    found
  }
}
