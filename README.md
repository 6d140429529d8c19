# Amazon SES message builder, modelled in Dafny

This project models the message builder of the CodeIgniter `Amazon_ses`
library, `libraries/Amazon_ses.php`. The builder has three parts:

- it accumulates a sender, recipients in three classes (`to`, `cc`, `bcc`),
  a subject and two bodies;
- it turns that state into the parameters of an Amazon SES `SendEmail` request;
- it signs the request with an `X-Amzn-Authorization` header and posts it
  to the regional endpoint.

The model proves what the builder does with its state in each of these steps.

Files and modules:

- `php_strings.dfy`, module `PhpStrings`: the PHP built-ins the class
  relies on. These are `strpos(…, ', ') !== FALSE`, `explode(', ', …)`, the
  decimal form of an integer, and `empty()` on a string. `Implode`, which the
  class never calls, is there to state the round trips of `Explode`.
- `recipients.dfy`, module `Recipients`: the recipient map as a value. The
  arguments of `to`/`cc`/`bcc` are strings or nested arrays.
  `Accepted` gives the addresses an argument adds. Lemmas cover single
  addresses, `", "`-lists, arrays and class separation.
- `query_string.dfy`, module `QueryString`: the `SendEmail` parameters as a
  function of the builder state (`SendParams`). Lemmas pin down every key,
  every value and the parameter count.
- `endpoint.dfy`, module `Endpoint`: the endpoint URL and the three request
  headers. The URL and the authorization value each have a parser that
  inverts them (`RegionOf`, `SignatureOf`). The `Content-Type` and `Date`
  values are read back through the header lookup `HeaderValue`.
- `amazon_ses.dfy`, module `SesLibrary`: the class `AmazonSes` with the
  builder's fields. The mutually recursive
  `To`/`Cc`/`Bcc`/`AddAddress`/`FormatAddresses` methods, the three-loop
  `FormatQueryString` and `Send` are each proved against the value-level
  functions above. The other setters (`From`, `Subject`, `Message`,
  `MessageAlt`, `Debug`) assign one field each and leave the rest alone.

Some things the class uses are parameters of the model:

- the framework's `valid_email` and PHP's `strip_tags` are function-valued
  constants given to the constructor;
- so is the signature: base64 of HMAC-SHA256 of the date under the secret key;
- the clock reading (`date(DATE_RSS)`) is a parameter of `Send`;
- so is the transport's outcome, `FALSE` or a response.

Modelling choices that follow the code:

- `empty($this->message_alt)` is PHP's `empty()`, which is also true for the
  string `"0"`. An alternative body of `"0"` is therefore replaced by the
  stripped HTML body (`PhpEmpty`).
- `unset($this->recipients)` is modelled as the empty map. Nothing in the
  class can tell an unset property from an array with no class set: `isset`
  is false for every class either way.
- The PHP fields `subject`, `message` and `message_alt` start as `NULL`; the
  model starts them as `""`. For `message_alt` the two behave alike, because
  `empty()` is true for both. For `subject` and `message` they differ: the
  parameter array stores them as they are (`Amazon_ses.php:375`, `377`),
  so a builder whose subject or body was never set posts `NULL` there, where
  `SendParams` holds `""`.
- A recipient class is created only when its first address is appended,
  exactly as `$this->recipients[$type][] = …` does.

Facts about this version of the code that the model follows:

- This version has no display name, charset, attachments or raw MIME. The
  `$name` parameter of `from` and the `$reply_to` field exist
  (`Amazon_ses.php:93`, `45`, set at `70-78`), but nothing uses them.
- `_format_addresses` returns `FALSE` for a class other than `to`, `cc` and
  `bcc`, and `_add_address` would then validate the address and append it
  under that key (`Amazon_ses.php:302-308`, `327-331`). The public methods
  only ever pass `to`, `cc` or `bcc`, and the model's `Class` type has only
  those three.

## Model

| member | source | states |
|---|---|---|
| `SesLibrary.AmazonSes.constructor` | libraries/Amazon_ses.php:42-85 | region starts as `us-east-1`, the sender is the configured one, no recipients, empty subject and bodies, debug off |
| `SesLibrary.AmazonSes.From` | libraries/Amazon_ses.php:93-106 | a valid address becomes the sender; an invalid one keeps the previous sender; nothing else changes |
| `SesLibrary.AmazonSes.To` | libraries/Amazon_ses.php:113-118 | the recipients become the old ones with exactly the accepted addresses of the argument appended, in order, to class `to`; only `recipients` can change |
| `SesLibrary.AmazonSes.Cc` | libraries/Amazon_ses.php:125-130 | the same for class `cc` |
| `SesLibrary.AmazonSes.Bcc` | libraries/Amazon_ses.php:137-142 | the same for class `bcc` |
| `SesLibrary.AmazonSes.Dispatch` | libraries/Amazon_ses.php:338-352 | `$this->{$type}($address)`, in the loop over array elements (line 338) and in the loop over exploded pieces (line 352), re-enters the public method of the same class, with that method's effect |
| `SesLibrary.AmazonSes.AddAddress` | libraries/Amazon_ses.php:296-317 | a list argument is expanded; a single address is appended exactly once when valid and otherwise dropped; either way the result is the accepted addresses appended to the class |
| `SesLibrary.AmazonSes.FormatAddresses` | libraries/Amazon_ses.php:324-364 | handles exactly the arrays and the strings containing `", "`; for those, each element or piece goes through the same class, in order; any other string is left unchanged for the caller |
| `SesLibrary.AmazonSes.Subject` | libraries/Amazon_ses.php:149-152 | sets the subject and nothing else |
| `SesLibrary.AmazonSes.Message` | libraries/Amazon_ses.php:159-162 | sets the HTML body and nothing else |
| `SesLibrary.AmazonSes.MessageAlt` | libraries/Amazon_ses.php:169-172 | sets the alternative body and nothing else |
| `SesLibrary.AmazonSes.Debug` | libraries/Amazon_ses.php:291-294 | turns debug mode on and nothing else |
| `SesLibrary.AmazonSes.FormatQueryString` | libraries/Amazon_ses.php:370-409 | the three counting loops produce exactly `SendParams` of the current state; the lemmas below give that map's properties |
| `SesLibrary.AmazonSes.Send` | libraries/Amazon_ses.php:179-229 | posts the current state's parameters to the region's endpoint with the signed headers; returns the raw result in debug mode and otherwise whether the transport succeeded; only `recipients` can change, as `RecipientsAfterSend` says |
| `SesLibrary.SendClearsOnlyOnSuccess` | libraries/Amazon_ses.php:202-228 | the recipients change at all only if debug is off, the transport did not return `FALSE` and `destroy` is true, and then they are emptied; a debug send or a failed send keeps them |
| `SesLibrary.SendReportsTransportOutcome` | libraries/Amazon_ses.php:202-228 | a non-debug send reports success exactly when the transport did not return `FALSE`; a debug send returns the transport result itself |
| `Recipients.SingleAddress` | libraries/Amazon_ses.php:306-313 | a string without `", "` adds itself if it passes the address check and nothing otherwise |
| `Recipients.AddSingleAddress` | libraries/Amazon_ses.php:296-317 | a valid single address is appended exactly once at the end of its class and every other class is unchanged; an invalid one leaves the recipients unchanged |
| `Recipients.SplitIsPieceByPiece` | libraries/Amazon_ses.php:344-356 | a string containing `", "` adds exactly what the same class adds for each exploded piece, left to right |
| `Recipients.TwoAddressList` | libraries/Amazon_ses.php:344-356 | `to('a, b')` has the effect of `to('a')` followed by `to('b')` |
| `Recipients.CommaWithoutSpace` | libraries/Amazon_ses.php:344 | `a,b` (comma and no space) is not split: it is checked, and added or dropped, as one address |
| `Recipients.ArrayIsElementByElement` | libraries/Amazon_ses.php:334-342 | an array adds exactly what adding its elements one after the other through the same class adds |
| `Recipients.AddedAddresses` | libraries/Amazon_ses.php:296-364 | no other class changes; the class gets the accepted addresses appended; every added address passed the check and was reached by the argument, and every reached valid address is added |
| `Recipients.PushAllAppends` | libraries/Amazon_ses.php:308 | repeated `[] =` appends the list to the class and creates the class only when something is appended |
| `Recipients.PushAllOtherClass` | libraries/Amazon_ses.php:308 | appending to one class never touches the list or the presence of another |
| `Recipients.ElementWeighsLess` | libraries/Amazon_ses.php:336-339 | an array element weighs less than the array, so the recursion over arrays terminates |
| `PhpStrings.PiecesHaveNoSep` | libraries/Amazon_ses.php:348-352 | no exploded piece contains `", "`, so a re-entered piece is never split again and the recursion over lists terminates |
| `PhpStrings.ImplodeExplode` | libraries/Amazon_ses.php:348 | joining the exploded pieces with `", "` gives back the original string |
| `PhpStrings.ExplodeImplode` | libraries/Amazon_ses.php:348 | a non-empty list of pieces without `", "`, joined with `", "` and exploded again, comes back unchanged, so `explode` is inverted exactly on such lists |
| `PhpStrings.ExplodeWithoutSep` | libraries/Amazon_ses.php:344-361 | a string without `", "` explodes into itself alone |
| `PhpStrings.ExplodeWithSep` | libraries/Amazon_ses.php:344-356 | a string with `", "` explodes into at least two pieces |
| `PhpStrings.ExplodeFirstPiece` | libraries/Amazon_ses.php:348 | exploding `a, rest`, with no `", "` in `a`, gives `a` and then the pieces of `rest` |
| `PhpStrings.DecimalInjective` | libraries/Amazon_ses.php:386 | distinct indices give distinct decimal strings |
| `QueryString.MemberKeyInjective` | libraries/Amazon_ses.php:386-403 | a `Destination.<Class>Addresses.member.<k>` key determines both its class and its index |
| `QueryString.MembersLookup` | libraries/Amazon_ses.php:384-387 | after the loop of a class, key k holds the class's k-th address |
| `QueryString.MembersCount` | libraries/Amazon_ses.php:384-387 | the loop of a class adds exactly one parameter per address |
| `QueryString.FixedKeys` | libraries/Amazon_ses.php:372-379 | the five fixed keys are distinct and none of them looks like a destination key |
| `QueryString.FixedParamsPresent` | libraries/Amazon_ses.php:372-379 | `Action` is `SendEmail`; `Source`, `Message.Subject.Data` and `Message.Body.Html.Data` are the sender, subject and HTML body; `Message.Body.Text.Data` is the alternative body unless PHP-empty, else the stripped HTML |
| `QueryString.DestinationParams` | libraries/Amazon_ses.php:382-405 | for every class and every k from 1 to its count, `Destination.<Class>Addresses.member.k` is present and holds the k-th address |
| `QueryString.OnlyThoseParams` | libraries/Amazon_ses.php:372-405 | every parameter is a fixed one or the destination key of an address present: there are no other keys |
| `QueryString.ParamCount` | libraries/Amazon_ses.php:372-405 | there are 5 parameters plus one per recipient, because no two keys collide |
| `QueryString.OneRecipientParams` | libraries/Amazon_ses.php:372-405 | with one `to` recipient, no `cc` or `bcc` recipient and no alternative body, the text body is the stripped HTML, `Destination.ToAddresses.member.1` is the recipient, and there are six parameters |
| `Endpoint.RegionOfEndpoint` | libraries/Amazon_ses.php:443-446 | the endpoint `https://email.<region>.amazonaws.com` parses back to its region |
| `Endpoint.EndpointOfRegion` | libraries/Amazon_ses.php:443-446 | every URL that parses as an endpoint is the endpoint of the region it names |
| `Endpoint.DefaultEndpoint` | libraries/Amazon_ses.php:42 | without a region override, the endpoint is `https://email.us-east-1.amazonaws.com` |
| `Endpoint.SignatureOfAuthorization` | libraries/Amazon_ses.php:422 | `AWS3-HTTPS AWSAccessKeyId=<key>, Algorithm=HmacSHA256, Signature=<sig>` carries exactly the signature it was built from |
| `Endpoint.AuthorizationOfSignature` | libraries/Amazon_ses.php:422 | an authorization value for the key is the one built from the signature it carries |
| `Endpoint.HeaderValues` | libraries/Amazon_ses.php:415-424 | the request has `Content-Type: application/x-www-form-urlencoded`, `Date` equal to the date that was signed, and the authorization value for the access key and that date's signature |
| `SesLibrary.AmazonSes.SignSignature` | libraries/Amazon_ses.php:431-437 | the signature of a date under the builder's secret key; `SesLibrary.AmazonSes.SetHeaders` and `Endpoint.HeaderValues` state how it reaches the request |
| `SesLibrary.AmazonSes.SetHeaders` | libraries/Amazon_ses.php:415-424 | the three headers for a date and that date's signature; `Endpoint.HeaderValues` states their values and `SesLibrary.AmazonSes.Send` that they are the ones posted |
| `SesLibrary.SendOutcome` | libraries/Amazon_ses.php:202-228 | what `send` returns for a debug flag and a transport outcome; `SesLibrary.SendReportsTransportOutcome` states its cases |
| `SesLibrary.RecipientsAfterSend` | libraries/Amazon_ses.php:213-227 | the recipients after `send`; `SesLibrary.SendClearsOnlyOnSuccess` states when they are emptied and when they stay |
| `Recipients.Push` | libraries/Amazon_ses.php:308 | `$this->recipients[$type][] = $address` on the map value; `Recipients.AddSingleAddress` and `Recipients.PushAllOtherClass` state that it appends once to its class only |
| `Recipients.Accepted` | libraries/Amazon_ses.php:296-364 | the addresses an argument adds, in order; `Recipients.AddedAddresses`, `Recipients.SplitIsPieceByPiece` and `Recipients.ArrayIsElementByElement` characterise it |
| `PhpStrings.Explode` | libraries/Amazon_ses.php:348 | `explode(', ', $s)` always yields at least one piece; `PhpStrings.ImplodeExplode`, `PhpStrings.PiecesHaveNoSep`, `PhpStrings.ExplodeWithoutSep` and `PhpStrings.ExplodeWithSep` state the rest |
| `PhpStrings.Decimal` | libraries/Amazon_ses.php:386 | the decimal string of an index is non-empty, and has two or more digits from 10 on; `PhpStrings.DecimalInjective` states that it is injective |
| `PhpStrings.PhpEmpty` | libraries/Amazon_ses.php:376 | PHP's `empty()` on a string, true for `""` and `"0"`; `QueryString.FixedParamsPresent` states its use for the text body |
| `QueryString.FixedParams` | libraries/Amazon_ses.php:372-379 | the five fixed parameters; `QueryString.FixedParamsPresent` and `QueryString.FixedKeys` state their keys and values |
| `QueryString.Members` | libraries/Amazon_ses.php:382-405 | the parameters one class's loop adds; `QueryString.MembersLookup`, `QueryString.MembersCount` and `QueryString.MemberKeyInjective` state their keys, values and number |
| `QueryString.SendParams` | libraries/Amazon_ses.php:370-409 | the whole parameter map; `QueryString.DestinationParams`, `QueryString.OnlyThoseParams` and `QueryString.ParamCount` characterise it |
| `Endpoint.EndpointFor` | libraries/Amazon_ses.php:443-446 | `_endpoint()` for a region; `Endpoint.RegionOfEndpoint` and `Endpoint.EndpointOfRegion` show that it is inverted by `RegionOf` |
| `Endpoint.Authorization` | libraries/Amazon_ses.php:422 | the `X-Amzn-Authorization` value; `Endpoint.SignatureOfAuthorization` and `Endpoint.AuthorizationOfSignature` show that it is inverted by `SignatureOf` |
| `PhpStrings.ContainsSep` | libraries/Amazon_ses.php:344 | `strpos($addresses, ', ') !== FALSE`, which decides whether `FormatAddresses` splits a string; `PhpStrings.ExplodeWithSep`, `PhpStrings.ExplodeWithoutSep` and `Recipients.CommaWithoutSpace` state what follows from it |
| `QueryString.MemberKey` | libraries/Amazon_ses.php:384-403 | the key `Destination.<Class>Addresses.member.<k>` written at lines 386, 395 and 403; `QueryString.MemberKeyInjective`, `QueryString.MembersLookup` and `QueryString.FirstToKey` state its properties |
| `QueryString.TextBody` | libraries/Amazon_ses.php:376 | the text body: the alternative body unless PHP-empty, else the stripped HTML body; `QueryString.FixedParamsPresent` states it |
| `Endpoint.Headers` | libraries/Amazon_ses.php:420-422 | the three `http_header` calls, in order; `Endpoint.HeaderValues` states their names and values |

## Left out

- The cURL transport (`create`, `post`, `ssl`, `option`, `execute`) and the Sparks/library loading in `send`: network I/O through a library outside this model. `Send` returns the request it would post and takes the transport's outcome as an input.
- `verify` is not modelled. It only posts a `VerifyEmailAddress` request for the given address through the same transport and changes no builder state.
- `hash_hmac`, `base64_encode` and `date(DATE_RSS)`: crypto and clock calls. The signature is a function of the date and the secret key given to the constructor, and the date is a parameter of `Send`.
- Signature sensitivity: the model cannot prove that changing the date or the key changes the signature. That is a property of HMAC-SHA256 that an uninterpreted function does not have. Determinism holds because the signature is a function.
- The internals of `valid_email` and `strip_tags`: framework and PHP built-ins, kept abstract.
- SesLibrary.AmazonSes.constructor: starts `subject`, `message` and `message_alt` as `""`, not `NULL`. So the model does not capture that a never-set subject or HTML body is posted as `NULL` under `Message.Subject.Data` or `Message.Body.Html.Data`; there `SendParams` holds `""`.
- Constructor plumbing: `get_instance`, configuration loading, `log_message`, `load->helper`, and the CA-certificate `file_exists`/`show_error` check. The constructor takes the configured access key, secret key and sender as a value.
- `reply_to`: the constructor sets it from configuration, but nothing in this version of the class reads it. Its initialisation reads framework configuration, so it is not modelled.
- The `$destroy` field: `send` never reads it; it reads its parameter `$destroy`, which defaults to `TRUE`, and so does the `destroy` parameter of `Send`.
- The `$name` parameter of `from`: the code never uses it.
- The unknown-type branch of `_format_addresses`: the public methods cannot reach it, and `Class` has only the three real classes.
- Arguments of `to`/`cc`/`bcc` other than strings and arrays of them, such as `NULL` or numbers: only strings and arrays are modelled.
- The fluent `return $this` of `to`/`cc`/`bcc`: chaining is sequencing of method calls in the model.
- The order of keys in the posted PHP array: `SendParams` is a map, so the insertion order of keys is not modelled.
- Logging of invalid addresses and failed sends.
