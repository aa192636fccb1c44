/** The replies the bot sends in the onboarding dialogue. Each is one fixed
    text; the model works with the reply itself and renders the text only
    where it is shown to the member. */
module Replies {

  datatype Reply = InvalidYear | InvalidLevel | MissingCert | TooManyArguments | Success

  /** The exact text sent for each reply. */
  function ReplyText(r: Reply): string {
    match r
    case InvalidYear => "Please specify a valid year!"
    case InvalidLevel => "Please specify a valid level!"
    case MissingCert => "Please provide your level cert"
    case TooManyArguments => "Too many arguments!"
    case Success => "Roles successfully added! Thank you!"
  }

  /** Every reply but the confirmation reports a problem with the message. */
  predicate IsComplaint(r: Reply) {
    r != Success
  }

  /** No two replies share a text, so working with replies instead of
      their texts loses nothing. */
  lemma ReplyTextInjective(a: Reply, b: Reply)
    ensures ReplyText(a) == ReplyText(b) <==> a == b
  {
    if a != b {
      assert ReplyText(a)[..5] != ReplyText(b)[..5] || |ReplyText(a)| != |ReplyText(b)|;
    }
  }
}
