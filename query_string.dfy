/** The parameters of a `SendEmail` request, as `_format_query_string`
    composes them from the builder state: five fixed parameters and, for
    every recipient class, one 1-based indexed parameter per address. */
module QueryString {
  import opened PhpStrings
  import opened Recipients

  /** The builder state the parameters are composed from. */
  datatype Outgoing = Outgoing(
    from: string,
    subject: string,
    html: string,
    alt: string,
    recipients: RecipientMap)

  type Params = map<string, string>

  const ActionKey: string := "Action"
  const SourceKey: string := "Source"
  const SubjectKey: string := "Message.Subject.Data"
  const TextKey: string := "Message.Body.Text.Data"
  const HtmlKey: string := "Message.Body.Html.Data"

  /** The name of a class inside its destination parameter. */
  function ClassName(c: Class): string
  {
    match c
    case To => "To"
    case Cc => "Cc"
    case Bcc => "Bcc"
  }

  /** `'Destination.<Class>Addresses.member.' . k`. */
  function MemberKey(c: Class, k: nat): string
  {
    "Destination." + ClassName(c) + "Addresses.member." + Decimal(k)
  }

  /** The plain-text body: the alternative body unless it is PHP-empty,
      else the HTML body with its tags stripped. */
  function TextBody(stripTags: string -> string, msg: Outgoing): string
  {
    if PhpEmpty(msg.alt) then stripTags(msg.html) else msg.alt
  }

  /** The parameters present whatever the recipients are. */
  function FixedParams(stripTags: string -> string, msg: Outgoing): Params
  {
    map[ActionKey := "SendEmail",
        SourceKey := msg.from,
        SubjectKey := msg.subject,
        TextKey := TextBody(stripTags, msg),
        HtmlKey := msg.html]
  }

  /** The indexed parameters of class c, added for k = 1, 2, ... in turn. */
  function Members(c: Class, xs: seq<string>): Params
  {
    if xs == [] then map[] else Members(c, xs[..|xs| - 1])[MemberKey(c, |xs|) := xs[|xs| - 1]]
  }

  /** All parameters of a `SendEmail` request for msg. */
  function SendParams(stripTags: string -> string, msg: Outgoing): Params
  {
    FixedParams(stripTags, msg)
      + Members(To, Lookup(msg.recipients, To))
      + Members(Cc, Lookup(msg.recipients, Cc))
      + Members(Bcc, Lookup(msg.recipients, Bcc))
  }

  /** One more turn of a counting loop adds the next indexed parameter. */
  lemma MembersStep(a: Params, c: Class, xs: seq<string>, i: nat)
    requires i < |xs|
    ensures a + Members(c, xs[..i + 1]) == (a + Members(c, xs[..i]))[MemberKey(c, i + 1) := xs[i]]
  {
    assert xs[..i + 1][..i] == xs[..i];
  }

  /** The counting loop of class c adds nothing when c is not set. */
  lemma MembersOfNone(a: Params, c: Class)
    ensures a + Members(c, []) == a
  {
  }

  /** A destination key names its class and its index unambiguously. */
  lemma MemberKeyInjective(c: Class, k: nat, d: Class, j: nat)
    requires MemberKey(c, k) == MemberKey(d, j)
    ensures c == d && k == j
  {
    var a, b := MemberKey(c, k), MemberKey(d, j);
    assert a[12] == ClassName(c)[0] && b[12] == ClassName(d)[0];
    var n := |"Destination." + ClassName(c) + "Addresses.member."|;
    assert a[n..] == Decimal(k) && b[n..] == Decimal(j);
    DecimalInjective(k, j);
  }

  /** Every destination key of class c starts with `D` and carries the
      initial of its class at position 12, which no fixed key does. */
  lemma {:induction false} MemberKeysShape(c: Class, xs: seq<string>)
    ensures forall key :: key in Members(c, xs) ==> |key| > 12 && key[0] == 'D' && key[12] == ClassName(c)[0]
  {
    if xs != [] {
      MemberKeysShape(c, xs[..|xs| - 1]);
      var top := MemberKey(c, |xs|);
      assert top[0] == 'D' && top[12] == ClassName(c)[0];
    }
  }

  /** The key of a position is present and holds the address at that position. */
  lemma {:induction false} MembersLookup(c: Class, xs: seq<string>, k: nat)
    requires 1 <= k <= |xs|
    ensures MemberKey(c, k) in Members(c, xs) && Members(c, xs)[MemberKey(c, k)] == xs[k - 1]
  {
    if k < |xs| {
      var init := xs[..|xs| - 1];
      MembersLookup(c, init, k);
      if MemberKey(c, k) == MemberKey(c, |xs|) {
        MemberKeyInjective(c, k, c, |xs|);
      }
    }
  }

  /** Every destination key of class c names a position of an address. */
  lemma {:induction false} MembersOnlyPositions(c: Class, xs: seq<string>)
    ensures forall key :: key in Members(c, xs) ==> exists k :: 1 <= k <= |xs| && key == MemberKey(c, k)
  {
    if xs != [] {
      var init := xs[..|xs| - 1];
      MembersOnlyPositions(c, init);
    }
  }

  /** Class c has exactly one parameter per address. */
  lemma {:induction false} MembersCount(c: Class, xs: seq<string>)
    ensures |Members(c, xs)| == |xs|
  {
    if xs != [] {
      var init := xs[..|xs| - 1];
      MembersCount(c, init);
      MembersOnlyPositions(c, init);
      var top := MemberKey(c, |xs|);
      assert top !in Members(c, init) by {
        if top in Members(c, init) {
          var k :| 1 <= k <= |init| && top == MemberKey(c, k);
          MemberKeyInjective(c, |xs|, c, k);
        }
      }
    }
  }

  /** The fixed keys: all distinct, none starting with `D`. */
  lemma FixedKeys(stripTags: string -> string, msg: Outgoing)
    ensures |FixedParams(stripTags, msg)| == 5
    ensures forall key :: key in FixedParams(stripTags, msg) ==> |key| > 0 && key[0] != 'D'
  {
    var fixed := FixedParams(stripTags, msg);
    assert fixed.Keys == {ActionKey, SourceKey, SubjectKey, TextKey, HtmlKey};
    assert ActionKey[0] == 'A' && SourceKey[0] == 'S' && SubjectKey[0] == 'M';
    assert SubjectKey[8] == 'S' && TextKey[8] == 'B' && TextKey[13] == 'T' && HtmlKey[13] == 'H';
  }

  /** The five fixed parameters, whatever the recipients. */
  lemma FixedParamsPresent(stripTags: string -> string, msg: Outgoing)
    ensures ActionKey in SendParams(stripTags, msg) && SendParams(stripTags, msg)[ActionKey] == "SendEmail"
    ensures SourceKey in SendParams(stripTags, msg) && SendParams(stripTags, msg)[SourceKey] == msg.from
    ensures SubjectKey in SendParams(stripTags, msg) && SendParams(stripTags, msg)[SubjectKey] == msg.subject
    ensures HtmlKey in SendParams(stripTags, msg) && SendParams(stripTags, msg)[HtmlKey] == msg.html
    ensures TextKey in SendParams(stripTags, msg)
    ensures SendParams(stripTags, msg)[TextKey] == if PhpEmpty(msg.alt) then stripTags(msg.html) else msg.alt
  {
    var r := msg.recipients;
    MemberKeysShape(To, Lookup(r, To));
    MemberKeysShape(Cc, Lookup(r, Cc));
    MemberKeysShape(Bcc, Lookup(r, Bcc));
    assert ActionKey[0] == 'A' && SourceKey[0] == 'S' && SubjectKey[0] == 'M' && TextKey[0] == 'M' && HtmlKey[0] == 'M';
  }

  /** For every class, key `Destination.<Class>Addresses.member.k` holds the
      k-th address of that class. */
  lemma DestinationParams(stripTags: string -> string, msg: Outgoing, c: Class, k: nat)
    requires 1 <= k <= |Lookup(msg.recipients, c)|
    ensures MemberKey(c, k) in SendParams(stripTags, msg)
    ensures SendParams(stripTags, msg)[MemberKey(c, k)] == Lookup(msg.recipients, c)[k - 1]
  {
    var r := msg.recipients;
    MembersLookup(c, Lookup(r, c), k);
    MemberKeysShape(To, Lookup(r, To));
    MemberKeysShape(Cc, Lookup(r, Cc));
    MemberKeysShape(Bcc, Lookup(r, Bcc));
    var key := MemberKey(c, k);
    assert key[12] == ClassName(c)[0];
  }

  /** There are no parameters but the five fixed ones and the destination
      keys of the addresses present. */
  lemma OnlyThoseParams(stripTags: string -> string, msg: Outgoing, key: string)
    requires key in SendParams(stripTags, msg)
    ensures key in {ActionKey, SourceKey, SubjectKey, TextKey, HtmlKey}
         || exists c, k :: 1 <= k <= |Lookup(msg.recipients, c)| && key == MemberKey(c, k)
  {
    var r := msg.recipients;
    MembersOnlyPositions(To, Lookup(r, To));
    MembersOnlyPositions(Cc, Lookup(r, Cc));
    MembersOnlyPositions(Bcc, Lookup(r, Bcc));
  }

  lemma DisjointUnionSize(a: Params, b: Params)
    requires a.Keys !! b.Keys
    ensures |a + b| == |a| + |b|
  {
    assert (a + b).Keys == a.Keys + b.Keys;
  }

  /** Four maps whose keys are told apart by their characters at positions 0
      and 12 have as many keys together as apart. */
  lemma SeparatedUnionSize(fixed: Params, to: Params, cc: Params, bcc: Params)
    requires forall key :: key in fixed ==> |key| > 0 && key[0] != 'D'
    requires forall key :: key in to ==> |key| > 12 && key[0] == 'D' && key[12] == 'T'
    requires forall key :: key in cc ==> |key| > 12 && key[0] == 'D' && key[12] == 'C'
    requires forall key :: key in bcc ==> |key| > 12 && key[0] == 'D' && key[12] == 'B'
    ensures |fixed + to + cc + bcc| == |fixed| + |to| + |cc| + |bcc|
  {
    var a := fixed + to;
    var b := a + cc;
    assert fixed.Keys !! to.Keys by {
      forall key | key in fixed.Keys ensures key !in to.Keys {}
    }
    DisjointUnionSize(fixed, to);
    assert a.Keys == fixed.Keys + to.Keys;
    assert a.Keys !! cc.Keys by {
      forall key | key in a.Keys ensures key !in cc.Keys {}
    }
    DisjointUnionSize(a, cc);
    assert b.Keys == a.Keys + cc.Keys;
    assert b.Keys !! bcc.Keys by {
      forall key | key in b.Keys ensures key !in bcc.Keys {}
    }
    DisjointUnionSize(b, bcc);
  }

  /** No two parameters share a key, so there are five plus one per address. */
  lemma ParamCount(stripTags: string -> string, msg: Outgoing)
    ensures |SendParams(stripTags, msg)| == 5 + |Lookup(msg.recipients, To)| + |Lookup(msg.recipients, Cc)| + |Lookup(msg.recipients, Bcc)|
  {
    var r := msg.recipients;
    FixedKeys(stripTags, msg);
    MembersCount(To, Lookup(r, To));
    MembersCount(Cc, Lookup(r, Cc));
    MembersCount(Bcc, Lookup(r, Bcc));
    MemberKeysShape(To, Lookup(r, To));
    MemberKeysShape(Cc, Lookup(r, Cc));
    MemberKeysShape(Bcc, Lookup(r, Bcc));
    assert ClassName(To)[0] == 'T' && ClassName(Cc)[0] == 'C' && ClassName(Bcc)[0] == 'B';
    SeparatedUnionSize(FixedParams(stripTags, msg), Members(To, Lookup(r, To)),
                       Members(Cc, Lookup(r, Cc)), Members(Bcc, Lookup(r, Bcc)));
  }

  /** The first `to` destination key, written out. */
  lemma FirstToKey()
    ensures MemberKey(To, 1) == "Destination.ToAddresses.member.1"
  {
    assert Decimal(1) == "1";
  }

  /** One `to` recipient and no alternative body: the text body is the
      stripped HTML, `Destination.ToAddresses.member.1` is the recipient,
      and there are six parameters. */
  lemma OneRecipientParams(stripTags: string -> string, msg: Outgoing, b: string)
    requires Lookup(msg.recipients, To) == [b]
    requires Lookup(msg.recipients, Cc) == [] && Lookup(msg.recipients, Bcc) == []
    requires msg.alt == ""
    ensures SendParams(stripTags, msg)[TextKey] == stripTags(msg.html)
    ensures "Destination.ToAddresses.member.1" in SendParams(stripTags, msg)
    ensures SendParams(stripTags, msg)["Destination.ToAddresses.member.1"] == b
    ensures |SendParams(stripTags, msg)| == 6
  {
    FixedParamsPresent(stripTags, msg);
    DestinationParams(stripTags, msg, To, 1);
    FirstToKey();
    ParamCount(stripTags, msg);
  }
}
