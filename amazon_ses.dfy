/** The `Amazon_ses` message builder: fluent setters that update its fields,
    the recursive recipient expansion of `to`/`cc`/`bcc`, the three counting
    loops that compose the `SendEmail` parameters, and what `send` does to
    the builder for a given transport outcome. The address check
    (`valid_email`), tag stripping (`strip_tags`) and the request signature
    (base64 of HMAC-SHA256 of the date under the secret key) are functions
    the builder is given, not defined here. */
module SesLibrary {
  import opened PhpStrings
  import opened Recipients
  import opened QueryString
  import opened Endpoint

  /** The configuration items the constructor reads. */
  datatype Config = Config(accessKey: string, secretKey: string, from: string)

  /** What the transport's `execute()` returns: `FALSE` or the response. */
  datatype Response = Failed | Received(body: string)

  /** What `send` returns: the raw transport result in debug mode, a
      success flag otherwise. */
  datatype SendResult = Raw(response: Response) | Sent(ok: bool)

  /** The request `send` hands to the transport. */
  datatype Request = Request(url: string, params: Params, headers: seq<Header>)

  /** The result of `send` for a debug flag and a transport outcome. */
  function SendOutcome(debug: bool, response: Response): SendResult
  {
    if debug then Raw(response) else Sent(response.Received?)
  }

  /** The recipients after `send`: emptied only after a non-debug send that
      the transport did not fail and that asked for it. */
  function RecipientsAfterSend(debug: bool, destroy: bool, response: Response, r: RecipientMap): RecipientMap
  {
    if !debug && response.Received? && destroy then map[] else r
  }

  /** The recipients are cleared exactly when all three conditions hold; a
      debug send or a failed send keeps them as they were. */
  lemma SendClearsOnlyOnSuccess(debug: bool, destroy: bool, response: Response, r: RecipientMap)
    ensures RecipientsAfterSend(debug, destroy, response, r) == map[] || RecipientsAfterSend(debug, destroy, response, r) == r
    ensures RecipientsAfterSend(debug, destroy, response, r) != r <==> !debug && response.Received? && destroy && r != map[]
    ensures debug || response == Failed || !destroy ==> RecipientsAfterSend(debug, destroy, response, r) == r
  {
  }

  /** A non-debug send reports success exactly when the transport did not
      return `FALSE`, whatever the response says. */
  lemma SendReportsTransportOutcome(debug: bool, response: Response)
    ensures !debug ==> (SendOutcome(debug, response) == Sent(true) <==> response.Received?)
    ensures debug ==> SendOutcome(debug, response) == Raw(response)
  {
  }

  class AmazonSes {
    const accessKey: string
    const secretKey: string
    /** `valid_email` of the framework's email helper. */
    const validEmail: string -> bool
    /** PHP's `strip_tags`. */
    const stripTags: string -> string
    /** `_sign_signature` before the secret key is fixed: date, secret key to signature. */
    const sign: (string, string) -> string

    var region: string
    var from: string
    var recipients: RecipientMap
    var subject: string
    var message: string
    var messageAlt: string
    var debug: bool

    /** The initial state; the configuration and the three functions are
        what the framework and PHP supply. */
    constructor (config: Config, validEmail: string -> bool, stripTags: string -> string, sign: (string, string) -> string)
      ensures this.accessKey == config.accessKey && this.secretKey == config.secretKey
      ensures this.validEmail == validEmail && this.stripTags == stripTags && this.sign == sign
      ensures region == DefaultRegion && from == config.from && recipients == map[]
      ensures subject == "" && message == "" && messageAlt == "" && !debug
    {
      this.accessKey := config.accessKey;
      this.secretKey := config.secretKey;
      this.validEmail := validEmail;
      this.stripTags := stripTags;
      this.sign := sign;
      region := DefaultRegion;
      from := config.from;
      recipients := map[];
      subject, message, messageAlt := "", "", "";
      debug := false;
    }

    /** The builder state the request parameters are composed from. */
    function State(): Outgoing
      reads this
    {
      Outgoing(from, subject, message, messageAlt, recipients)
    }

    /** `from($from)`: a valid address replaces the sender; an invalid one
        leaves the previous sender. */
    method From(address: string)
      modifies this`from
      ensures from == if validEmail(address) then address else old(from)
    {
      if validEmail(address) {
        from := address;
      }
    }

    /** `to($to)`: adds the valid addresses the argument reaches to `to`. */
    method To(arg: AddressArg)
      modifies this`recipients
      ensures recipients == PushAll(old(recipients), Class.To, Accepted(validEmail, arg))
      decreases Weight(arg), 2
    {
      AddAddress(arg, Class.To);
    }

    /** `cc($cc)`: adds the valid addresses the argument reaches to `cc`. */
    method Cc(arg: AddressArg)
      modifies this`recipients
      ensures recipients == PushAll(old(recipients), Class.Cc, Accepted(validEmail, arg))
      decreases Weight(arg), 2
    {
      AddAddress(arg, Class.Cc);
    }

    /** `bcc($bcc)`: adds the valid addresses the argument reaches to `bcc`. */
    method Bcc(arg: AddressArg)
      modifies this`recipients
      ensures recipients == PushAll(old(recipients), Class.Bcc, Accepted(validEmail, arg))
      decreases Weight(arg), 2
    {
      AddAddress(arg, Class.Bcc);
    }

    /** `$this->{$type}($address)`: the public method of class c. */
    method Dispatch(c: Class, arg: AddressArg)
      modifies this`recipients
      ensures recipients == PushAll(old(recipients), c, Accepted(validEmail, arg))
      decreases Weight(arg), 3
    {
      match c
      case To => To(arg);
      case Cc => Cc(arg);
      case Bcc => Bcc(arg);
    }

    /** `_add_address`: lists are expanded by FormatAddresses; anything else
        is a single address, appended when it passes the check. */
    method AddAddress(arg: AddressArg, c: Class)
      modifies this`recipients
      ensures recipients == PushAll(old(recipients), c, Accepted(validEmail, arg))
      decreases Weight(arg), 1
    {
      var handled := FormatAddresses(arg, c);
      if !handled {
        SingleAddress(validEmail, arg.s);
        if validEmail(arg.s) {
          recipients := Push(recipients, c, arg.s);
        }
      }
    }

    /** `_format_addresses`: an array, or a string containing `", "`, is
        handled by sending each element or piece through the method of
        class c, in order; any other string is left to the caller. */
    method FormatAddresses(arg: AddressArg, c: Class) returns (handled: bool)
      modifies this`recipients
      ensures handled <==> arg.Items? || ContainsSep(arg.s)
      ensures handled ==> recipients == PushAll(old(recipients), c, Accepted(validEmail, arg))
      ensures !handled ==> recipients == old(recipients)
      decreases Weight(arg), 0
    {
      match arg
      case Items(es) =>
        for i := 0 to |es|
          invariant recipients == PushAll(old(recipients), c, Filter(validEmail, LeavesOf(es[..i])))
        {
          ElementWeighsLess(es, i);
          Dispatch(c, es[i]);
          ElementStep(validEmail, old(recipients), c, es, i);
        }
        assert es[..|es|] == es;
        handled := true;
      case Text(s) =>
        if ContainsSep(s) {
          var pieces := Explode(s);
          PiecesHaveNoSep(s);
          for i := 0 to |pieces|
            invariant recipients == PushAll(old(recipients), c, Filter(validEmail, pieces[..i]))
          {
            Dispatch(c, Text(pieces[i]));
            PieceStep(validEmail, old(recipients), c, pieces, i);
          }
          assert pieces[..|pieces|] == pieces;
          handled := true;
        } else {
          handled := false;
        }
    }

    /** `subject($subject)`. */
    method Subject(s: string)
      modifies this`subject
      ensures subject == s
    {
      subject := s;
    }

    /** `message($message)`. */
    method Message(s: string)
      modifies this`message
      ensures message == s
    {
      message := s;
    }

    /** `message_alt($message_alt)`. */
    method MessageAlt(s: string)
      modifies this`messageAlt
      ensures messageAlt == s
    {
      messageAlt := s;
    }

    /** `debug()`: makes `send` return the raw transport result. */
    method Debug()
      modifies this`debug
      ensures debug
    {
      debug := true;
    }

    /** `_format_query_string`, returning the parameters it posts: the five
        fixed ones, then one indexed parameter per address of each class
        that is set. */
    method FormatQueryString() returns (params: Params)
      ensures params == SendParams(stripTags, State())
    {
      ghost var fixed := FixedParams(stripTags, State());
      params := map[ActionKey := "SendEmail",
                    SourceKey := from,
                    SubjectKey := subject,
                    TextKey := if PhpEmpty(messageAlt) then stripTags(message) else messageAlt,
                    HtmlKey := message];
      ghost var to, cc, bcc := Lookup(recipients, Class.To), Lookup(recipients, Class.Cc), Lookup(recipients, Class.Bcc);
      if Class.To in recipients {
        for i := 0 to |recipients[Class.To]|
          invariant params == fixed + Members(Class.To, to[..i])
        {
          MembersStep(fixed, Class.To, to, i);
          params := params[MemberKey(Class.To, i + 1) := recipients[Class.To][i]];
        }
        assert to[..|to|] == to;
      } else {
        MembersOfNone(fixed, Class.To);
      }
      assert params == fixed + Members(Class.To, to);
      ghost var withTo := params;
      if Class.Cc in recipients {
        for i := 0 to |recipients[Class.Cc]|
          invariant params == withTo + Members(Class.Cc, cc[..i])
        {
          MembersStep(withTo, Class.Cc, cc, i);
          params := params[MemberKey(Class.Cc, i + 1) := recipients[Class.Cc][i]];
        }
        assert cc[..|cc|] == cc;
      } else {
        MembersOfNone(withTo, Class.Cc);
      }
      assert params == withTo + Members(Class.Cc, cc);
      ghost var withCc := params;
      if Class.Bcc in recipients {
        for i := 0 to |recipients[Class.Bcc]|
          invariant params == withCc + Members(Class.Bcc, bcc[..i])
        {
          MembersStep(withCc, Class.Bcc, bcc, i);
          params := params[MemberKey(Class.Bcc, i + 1) := recipients[Class.Bcc][i]];
        }
        assert bcc[..|bcc|] == bcc;
      } else {
        MembersOfNone(withCc, Class.Bcc);
      }
      assert params == withCc + Members(Class.Bcc, bcc);
    }

    /** `_sign_signature($date)`. */
    function SignSignature(date: string): string
    {
      sign(date, secretKey)
    }

    /** The headers `_set_headers` attaches for the given date. */
    function SetHeaders(date: string): seq<Header>
    {
      Headers(accessKey, date, SignSignature(date))
    }

    /** `send($destroy = TRUE)`, with the clock reading and the transport's result
        as inputs: the request it would post, what it returns, and the
        recipients it keeps. Nothing but the recipients can change. */
    method Send(date: string, response: Response, destroy: bool := true) returns (request: Request, result: SendResult)
      modifies this`recipients
      ensures request == Request(EndpointFor(region), old(SendParams(stripTags, State())), SetHeaders(date))
      ensures result == SendOutcome(debug, response)
      ensures recipients == RecipientsAfterSend(debug, destroy, response, old(recipients))
    {
      var params := FormatQueryString();
      request := Request(EndpointFor(region), params, SetHeaders(date));
      if debug {
        return request, Raw(response);
      }
      if response == Failed {
        return request, Sent(false);
      }
      if destroy {
        recipients := map[];
      }
      result := Sent(true);
    }
  }
}
