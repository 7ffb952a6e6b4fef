# asx-rs: a verified model

asx-rs exchanges business documents over AS4 (ebMS 3.0 over SOAP and MIME) and AS2 (RFC 4130 over HTTP and S/MIME). This
project models the parts of it on which the two ends of an exchange rely, and proves what they promise:

* **Deliveries.** `Dedup` is the in-process replay store with leases, retention and eviction. `Delivery` is a step system
  of any number of concurrent deliveries over one store: every await is a point where others may move, time passes, leases
  expire, connections drop, and a clock reading is taken one step before the lock under which it is used. `DeliverySafety`
  and `DeliverySettlement` hold the theorems over all its runs, and `DeliveryReplies` says what each delivery is answered.
  `Inbound` is the same delivery as the code is written, and is
  shown to be a path of the step system. `DedupKey` is the key a message is stored under.
* **AS4 receipts.** `Signal` reads the counterparty's signal from an XML tree (`Xml`), `Receipt` verifies it, and
  `NonRepudiation` compares its digests with those that were signed. `SignalMeaning` and `ReceiptMeaning` say, element by
  element, what is read and exactly what is acknowledged or taken as a rejection.
* **Time.** `Calendar` and `Rfc3339` are the conversions between instants, calendar dates and text.
* **The AS2 answer.** `MdnReport` prints a disposition notification and reads its fields, `MdnReading` shows that the one
  undoes the other, `MdnVerdict` judges an answer, `MdnMeaning` says exactly when it is Delivered or Refused, and `MdnAgreement`
  shows that both parties draw the same conclusion.
  `Identifiers` holds message and party identifiers.
* **MIME.** `MimePackage` is the multipart writer against a reader after section 5.1.1 of RFC 2046; `MediaType` holds the two
  media-type recognisers against the grammar of section 8.3.1 of RFC 9110.
* **Decryption.** `TwoPass` is decryption with asynchronous keys on a synchronous seam; `KeySelection` is the choice of the
  decrypter.
* **SBDH.** `Sbdh` is the extraction of a payload with its inherited namespaces on elements, `SbdhScan` the start-tag
  scanners, and `SbdhText` the extraction on the document's text, where the two meet.

Digests, signatures, ciphers, base64, the hash of the dedup key and the mail parser's signature check are parameters; a
theorem names the laws it needs of them (`Codec`, for instance). Integers are unbounded unless a contract says otherwise.

## What does not hold as written

* `epoch_secs_to_calendar` divides by 1461 where the published algorithm divides by 1460. Its result is right on every day
  but 29 February (`Calendar.DateRoundTrip`, both directions). On a 29 February the day-of-year subtraction falls below zero,
  or, in the last year of a 400-year era, the result is 1 March. Without overflow checks the date becomes day 215 of month
  163 (`Calendar.LeapDayWraps`), and the text made of it does not parse (`Rfc3339.WrappedDateDoesNotParse`).
* The comment on it promises the full `i64` range; the year is computed in `i32`. Off 29 February, a build with overflow
  checks is exact only from 1 March of year -2147483600 through 31 December 2147483647 (`Calendar.CheckedIsExactIff`, both
  directions), and a build without them exactly for the years an `i32` holds (`Calendar.WrappingIsExactIff`). On the day
  after 31 December 2147483647 the one has no result and the other a negative year (`Calendar.FullRangeFails`).
* Evicting on every claim is invisible when clock readings are applied in order. In any order it shows exactly when a claim
  evicts an entry that a later operation with an earlier reading still reaches (`Dedup.EvictionShowsIff`, for every sequence
  of operations); an accept can fail for it (`Dedup.AcceptAfterEviction`).
* Two decryption passes differ from a direct decryption when a second key operation depends on the first one's secret
  (`TwoPass.DependentRequestsDiffer`); exactly when they agree on what is asked is `TwoPass.TwoPassesRefineDirect`.
* An issuer and serial can name two decrypters of an accepted configuration (`KeySelection.IssuerSerialMayBeAmbiguous`).
* The AS2 media-type recogniser is documented to admit no CR or LF; it admits them behind a backslash
  (`MediaType.EscapedBreakIsAccepted`, `MediaType.AcceptedBreaksAreEscaped`).
* Payload extraction loses an attribute's namespace when the same URI has another prefix first in scope
  (`Sbdh.TwoPrefixesLoseMeaning`), or when a value on the payload's start tag looks like a declaration
  (`SbdhText.DecoyLosesMeaning`); `SbdhText.WrittenExtractionPreservesMeaningIff` is the exact condition.
* A payload that depends on nothing outside is not always returned byte for byte: a prefix that only an inner element
  declares and uses counts as used (`Sbdh.SelfContainedIsChanged`). `SbdhText.ReturnedUnchangedIff` says exactly when the
  text is unchanged.

## Model

| member | source | states |
|---|---|---|
| `Dedup.MemoryDedup.ClaimNow` | src/dedup.rs:112-133 | a claim evicts what has expired at its reading, answers Duplicate or InFlight for a live entry, and otherwise holds the key under the drawn token for a lease; without a token it fails |
| `Dedup.MemoryDedup.Settle` | src/dedup.rs:135-159 | only the current, unexpired token settles; any other settle changes nothing, so no accepted entry and no other holder's entry is ever touched |
| `Dedup.EvictionIsInvisible` | src/dedup.rs:97-159 | with readings in nondecreasing order every sequence of claims, accepts and abandons gets the answers of a store that never evicts |
| `Dedup.EvictionShowsIff` | src/dedup.rs:112-159 | for every sequence of operations with readings in any order, the answers are those of a store that never evicts exactly when no claim evicts an entry that a later claim, or settle under its token, still reaches with an earlier reading |
| `Dedup.AcceptAfterEviction` | src/dedup.rs:112-159 | such an eviction makes an accept fail that the store that never evicts lets succeed |
| `Dedup.KeysAreIndependent` | src/dedup.rs:112-159 | with readings in order, the answers on one key are those of the operations on that key alone |
| `DedupKey.PreimageIsUnambiguous` | src/dedup.rs:199-228 | parts without NUL are hashed unambiguously: one preimage is one protocol, sender and message id |
| `DedupKey.SameKeySameMessage` | src/dedup.rs:199-228 | two messages under one key are one message, or two preimages with one hash |
| `DedupKey.ConfusedIff` | src/dedup.rs:199-228 | a message shares its preimage with another message exactly when one of its parts holds a NUL, which no part of a received message does |
| `DeliverySafety.CoreHolds` | src/as4/inbound.rs:133-278 | in every run tokens have one owner, each held or accepted entry stems from a logged claim or accept, and every logged answer has its causes before it |
| `DeliverySafety.PositiveAnswersAreEarned` | src/as2/inbound.rs:300-433 | in every run a receipt, processed MDN or duplicate answer is preceded by a delivery of the same key that was handled with Ok, signed, recorded and accepted, in this order; for a duplicate that accept is less than the retention before the claim |
| `DeliverySafety.InFlightOnlyUnderLease` | src/dedup.rs:112-133 | in every run InFlight is answered only while the current holder, the last delivery the key was leased to, has an unsettled lease that covers the claim's reading |
| `DeliverySafety.NoKeyStaysStuck` | src/dedup.rs:112-133 | in every run a claim whose reading is at least a lease after the current holder's is never answered InFlight |
| `DeliverySafety.OneTokenCanSettle` | src/dedup.rs:135-159 | in every reachable state at most one token per key can settle |
| `DeliverySettlement.AcceptsAreSpaced` | src/dedup.rs:97-159 | in every run the readings of two successful accepts of one key are at least the retention apart, though readings are taken before the lock |
| `DeliverySettlement.EveryClaimSettledOnce` | src/as4/inbound.rs:167-323 | a delivery that obtained a claim and is done called exactly one of accept and abandon, on every path of both protocols; one that obtained none called neither |
| `DeliverySettlement.TokensSettleOnce` | src/dedup.rs:135-159 | in every run each token settles successfully at most once |
| `DeliveryReplies.RepliesAreDetermined` | src/as4/inbound.rs:91-323 | in every run a finished delivery answered once, and its log decides with what: the positive answer exactly when its own accept succeeded, a duplicate answer exactly for a Duplicate claim and a signed answer, 503 exactly for an InFlight claim, a refusal exactly when the handler refused and, in AS2, it was signed, a test receipt exactly for a signed test, and a backend failure otherwise |
| `DeliveryReplies.OnlyTheDoneAnswer` | src/as2/inbound.rs:300-446 | in every run an answer is logged exactly for a delivery that is done with it |
| `Inbound.Handle` | src/as4/inbound.rs:91-165 | a delivery is a path of the step system made of its own steps; its reply follows from what the store holds of the key at the claim's reading and from how its calls end, and the key is left accepted or released |
| `Inbound.ClaimAndDeliver` | src/as2/inbound.rs:300-331 | a live held entry is answered 503 and a live accepted one as a duplicate, both left alone; otherwise the claim is delivered |
| `Inbound.Deliver` | src/as2/inbound.rs:333-446 | positive exactly when evidence, handler, signature and record went well and the lease lasted, a refusal when the handler refused, a backend failure otherwise; within the lease the key is left accepted or released |
| `Inbound.RecordAndAccept` | src/as2/inbound.rs:396-428 | a handled and signed delivery whose record fails where the sink is durable is abandoned, and accepted otherwise |
| `Inbound.Accept` | src/as4/inbound.rs:266-278 | within the lease accept succeeds, the answer is positive and the key is accepted for the retention; a failed accept is a backend failure and does not abandon |
| `Inbound.Abandon` | src/as4/inbound.rs:279-333 | within the lease the claim is released; the answer is a refusal, signed in AS2, or a backend failure |
| `Inbound.RunContinues` | src/as4/inbound.rs:91-165 | a delivery appended to any run of the system is again a run of it |
| `Signal.FillSlot` | src/as4/parser.rs:757-897 | a slot is filled by at most one non-empty text; a second one is refused |
| `Signal.FillSlots` | src/as4/parser.rs:757-897 | the three message-info slots hold the only text of their name, or the signal is refused as ambiguous |
| `Signal.HarvestReceipts` | src/as4/parser.rs:757-897 | the references of all receipts in document order, complete ones only, refused when one comes after the cap |
| `Signal.CollectErrors` | src/as4/parser.rs:757-897 | the error elements in order |
| `Signal.ParseSignalEnvelope` | src/as4/parser.rs:757-897 | the parsed signal is a function of the one SignalMessage element and of whether a signature is there |
| `SignalMeaning.ParsedSignalMeans` | src/as4/parser.rs:757-897 | an accepted parse is of the only SignalMessage; message id, RefToMessageId and timestamp are the texts of their own elements in its MessageInfo, receipts and references those inside it with the URI, method and digest each states, and errors its first error elements read attribute by attribute |
| `SignalMeaning.NoSignalMeans` | src/as4/parser.rs:757-800 | a signal is reported exactly when there is one, a signature exactly when there is one |
| `SignalMeaning.TextOfLeaf` | src/as4/parser.rs:730-741 | the text of an element is trimmed, and none if blank |
| `NonRepudiation.VerifyNonRepudiation` | src/as4/receipt_verify.rs:786-945 | the loops accept exactly what proves receipt, and each of the eight refusals names a defect that is there |
| `NonRepudiation.StrictProofMeans` | src/as4/receipt_verify.rs:786-945 | under the strict policy receipt is proved exactly when the references are not empty, pairwise distinct, name the URIs that were signed and agree in method and decoded digest |
| `NonRepudiation.OrderDoesNotMatter` | src/as4/receipt_verify.rs:786-945 | the outcome does not depend on the order of entries on either side |
| `Receipt.SignalIsSigned` | src/as4/services.rs:88-136 | the SignalMessage lies in an element that a verified reference names and digests |
| `Receipt.SignedContentDecides` | src/as4/receipt_verify.rs:263-430 | two accepted documents that agree on the elements named by the signed ids yield the same receipt and answer the same message, whatever else they contain |
| `Receipt.DifferentReceiptsCollide` | src/as4/receipt_verify.rs:263-430 | two different receipts accepted under one signed statement exhibit two elements with the one signed digest |
| `Receipt.AcceptedReceiptProves` | src/as4/receipt_verify.rs:263-430 | an accepted receipt under the strict policy is signed, answers the sent message, lies within the window on either side of the clock, and repeats the message's references one by one |
| `ReceiptMeaning.AcknowledgedIff` | src/as4/receipt_verify.rs:263-430 | a receipt is acknowledged exactly when it comes without errors, refers to the sent message, its signature verifies under pins and covers the signal or is not required, it lies in the window and proves receipt as the policy asks; its fields are the signal's |
| `ReceiptMeaning.RejectedIff` | src/as4/receipt_verify.rs:313-373 | a rejection is taken exactly from errors without a receipt that refer to the sent message or to none |
| `ReceiptMeaning.CoveredIff` | src/as4/services.rs:88-136 | the signal is covered exactly when it is the only one and an element that holds it is named by its id |
| `ReceiptMeaning.ResolvesIff` | src/as4/receipt_verify.rs:529-548 | a signed id names an element exactly when that is the only one in the document to carry it |
| `ReceiptMeaning.ReferencesVerifyIff` | src/as4/receipt_verify.rs:529-548 | references verify exactly when each names one element and states its digest |
| `Calendar.DayAfterDay` | src/time_utils.rs:178-191 | the next calendar day has the next day number, for all years |
| `Calendar.DaysAreCounted` | src/time_utils.rs:178-191 | the difference of two day numbers is the number of days counted one by one through the Gregorian calendar |
| `Calendar.EpochIsDayZero` | src/time_utils.rs:178-191 | a day number is the count of days from 1 January 1970 |
| `Calendar.DaysAreOrdered` | src/time_utils.rs:178-191 | day numbers order dates as year, month and day do |
| `Calendar.DateRoundTrip` | src/time_utils.rs:197-215 | back from a day number comes the date exactly off 29 February; on one the subtraction underflows or gives 1 March; with divisor 1460 it always comes back |
| `Calendar.DayRoundTrip` | src/time_utils.rs:197-215 | every day number is that of a valid date, and the code finds it exactly off 29 February |
| `Calendar.LeapDayWraps` | src/time_utils.rs:197-215 | without overflow checks a 29 February becomes day 215 of month 163, its year cut to `i32` |
| `Calendar.WrappingIsExactIff` | src/time_utils.rs:194-215 | without overflow checks the result is the true date exactly off 29 February and when an `i32` holds the year |
| `Calendar.WrappingKeeps` | src/time_utils.rs:197-215 | off 29 February a build without overflow checks gives the true month and day, and the year cut to `i32` |
| `Calendar.CheckedIsExactIff` | src/time_utils.rs:194-215 | with overflow checks the result is the true date exactly off 29 February and from 1 March -2147483600 through 31 December 2147483647 |
| `Calendar.FullRangeFails` | src/time_utils.rs:194-215 | on the next day a build with overflow checks has no result and one without them a negative year, though its seconds fit `i64` |
| `Calendar.EraFits` | src/time_utils.rs:198-199 | for every `i64` of seconds the era fits `i32` |
| `Rfc3339.ParseFixed` | src/time_utils.rs:219-231 | a field of the given width is read as the number its digits write, anything else refused |
| `Rfc3339.ParseToUnixSecs` | src/time_utils.rs:104-167 | the parser with its fraction and zone scans computes its specification, on all inputs |
| `Rfc3339.SecsRoundTrip` | src/time_utils.rs:58-67 | format then parse returns the same second, for all times from 1970 through 9999, exactly off 29 February |
| `Rfc3339.MillisRoundTrip` | src/time_utils.rs:69-100 | the same to the millisecond |
| `Rfc3339.WrappedDateDoesNotParse` | src/time_utils.rs:104-167 | the text of a wrapped date is refused by the parser |
| `Rfc3339.FormattedTimesSort` | src/time_utils.rs:58-67 | times formatted to the second sort bytewise in time order |
| `Rfc3339.FormattedMillisSort` | src/time_utils.rs:69-76 | times formatted to the millisecond sort bytewise in time order |
| `Rfc3339.ParseShifts` | src/time_utils.rs:104-167 | with any fraction and any numeric zone the time is that of the Z form minus the offset, refused exactly when one of the two is |
| `Rfc3339.FractionIsDropped` | src/time_utils.rs:126-136 | a fraction of any number of digits before Z is dropped, and so is what follows the Z |
| `Rfc3339.FieldsParse` | src/time_utils.rs:104-167 | for all field values and separators: read exactly with hyphens, T or t and colons, a month to 12, a day to 31, an hour to 23, a minute to 59 and a second to 60, as the count of days and seconds |
| `Rfc3339.BeforeEpochIsEpoch` | src/time_utils.rs:56-76 | a time before 1970 is written as the epoch |
| `TwoPass.RunPass` | src/as4/inbound.rs:716-753 | a pass answers from the answers it has, records what it lacks, and fails those uniformly |
| `TwoPass.Open` | src/as4/inbound.rs:408-455 | the loop returns by its second pass; with at most one distinct external operation the result is what the opening gives when every decrypter, local or external, answers truly |
| `TwoPass.PassIsDirect` | src/as4/inbound.rs:716-753 | a pass leaves nothing open exactly when it has every answer the direct decryption asks for, and is then the direct decryption |
| `TwoPass.TwoPassesRefineDirect` | src/as4/inbound.rs:408-455 | the second pass asks for nothing new exactly when the first recorded every request of the direct decryption; then the results are equal |
| `TwoPass.OneRequestSuffices` | src/as4/inbound.rs:408-455 | with at most one distinct external request the result is always that of the direct decryption |
| `TwoPass.DependentRequestsDiffer` | src/as4/inbound.rs:408-455 | when a second request needs the first one's secret, two passes fail where the direct decryption succeeds |
| `TwoPass.DirectIsTrue` | src/as4/inbound.rs:696-753 | the direct decryption gives what the opening gives on its true transcript: local keys' own answers, failures where an operation cannot leave the process, and external answers |
| `TwoPass.OneTranscript` | src/as4/inbound.rs:696-753 | there is only one true transcript that ends |
| `TwoPass.TranscriptEnds` | src/as4/inbound.rs:696-753 | and there is one |
| `TwoPass.OpensTruly` | src/as4/inbound.rs:408-455 | two passes give the result of the true transcript when at most one distinct operation is external |
| `KeySelection.Validate` | src/builder.rs:524-552 | the loop accepts exactly the decrypters with allowed keys of which no two share a certificate or a subject key identifier |
| `KeySelection.AcceptedIffUnambiguous` | src/builder.rs:524-552 | that is exactly: no subject key identifier and no certificate names two decrypters |
| `KeySelection.SelectsTheOnlyAnswer` | src/as4/inbound.rs:683-713 | selection gives a decrypter exactly when it alone answers and its key type is supported |
| `KeySelection.SelectionIsExact` | src/as4/inbound.rs:683-713 | in an accepted configuration an identifier or a certificate selects exactly the supported decrypter that answers to it |
| `KeySelection.IssuerSerialMayBeAmbiguous` | src/as4/inbound.rs:755-797 | any two decrypters with one issuer, in either order, and one serial are accepted, and neither is selected |
| `KeySelection.SelectsByOwnSerial` | src/as4/inbound.rs:755-797 | a decrypter is selected by its own serial and issuer, in either order, when no other has both |
| `KeySelection.SelectsNoOther` | src/as4/inbound.rs:755-797 | a serial or issuer that no decrypter has selects none |
| `KeySelection.SelectRecipient` | src/as2/cms_keys.rs:438-461 | the nested loops select the only pair of a recipient and a decrypter it addresses, if its transport is known, and fail otherwise |
| `KeySelection.EnvelopeByKeyIdentifier` | src/as2/cms_keys.rs:372-383 | in an accepted configuration a recipient named by key identifier addresses the one RSA decrypter that answers |
| `KeySelection.EnvelopeByOwnSerial` | src/as2/cms_keys.rs:372-383 | issuer and serial address exactly the readable RSA decrypter that alone has both |
| `KeySelection.EnvelopeByOtherSerial` | src/as2/cms_keys.rs:372-383 | a serial or issuer that no decrypter has addresses none |
| `MediaType.Recognise` | src/as4/mime_packaging.rs:301-322 | the scan accepts exactly the printed forms of the grammar's syntax trees; its index grows with every parameter |
| `MediaType.ValidateMediaType` | src/as4/mime_packaging.rs:270-341 | exactly the printable strings of the grammar |
| `MediaType.ValidMediaType` | src/as2/client.rs:359-413 | exactly the strings of at most 255 octets of the grammar without unescaped CR and LF |
| `MediaType.AcceptsIffInGrammar` | src/as4/mime_packaging.rs:273-322 | the greedy scan on suffixes agrees with the grammar, both ways |
| `MediaType.RecognisersAgree` | src/as2/client.rs:359-413 | on every value without CR and LF, so on every printable one, both grammars agree |
| `MediaType.AcceptedBreaksAreEscaped` | src/as2/client.rs:370-385 | in an accepted AS2 value every CR or LF follows a backslash; there is none exactly when no backslash precedes one |
| `MediaType.EscapedBreakIsAccepted` | src/as2/client.rs:370-385 | an escaped CR is accepted, in values within the 255 octets the recogniser admits |
| `MimePackage.WriteLine` | src/as4/mime_packaging.rs:356-380 | a header line is written with its line end, or refused exactly when it holds a control octet |
| `MimePackage.WriteAttachment` | src/as4/mime_packaging.rs:493-546 | header lines, empty line, body and line break are appended, exactly when no header holds a control octet |
| `MimePackage.Build` | src/as4/mime_packaging.rs:446-478 | the package is the encapsulation of all parts in order, and fails exactly without a SOAP part or with a control octet in the boundary or a header |
| `MimePackage.PackageSplitsBack` | src/as4/mime_packaging.rs:446-546 | the package splits back into its parts exactly when no body, after a line break, contains the delimiter; every part then gives back its header lines and body octet for octet, and the lines say its own type, encoding, id and disposition |
| `MimePackage.HeadersHoldNoDelimiter` | src/as4/mime_packaging.rs:493-525 | header lines never form the delimiter |
| `MimePackage.HeadersSayFields` | src/as4/mime_packaging.rs:493-525 | behind each header name stands the attachment's own field, the id in angle brackets |
| `Identifiers.MessageIdSurvives` | src/as2.rs:121-125 | an id in angle brackets comes back without its surrounding space; every id the sender accepts comes back unchanged |
| `Identifiers.ValidMessageIdIff` | src/as2/client.rs:329-342 | an id is valid exactly when it is two printable sides around one `@` within 255 octets |
| `Identifiers.UnpairedBrackets` | src/as2.rs:121-125 | a bracket on one side only is removed, an id without brackets kept |
| `Identifiers.ParseHeaderId` | src/as2/client.rs:499-519 | the loop with its escape flag unquotes a value, or leaves it but for surrounding space |
| `Identifiers.PartyIdSurvives` | src/as2/client.rs:490-519 | a party id survives its header exactly when it is quoted there or has no space at its ends; every AS2 identifier does |
| `Identifiers.PlainIdIsPlain` | src/as2/client.rs:490-496 | an id is written as it is exactly when it has no space, quote or backslash |
| `MdnReport.ParseFields` | src/as2/mdn.rs:313-411 | the line loop gives the unfolded fields by name, or fails exactly when a field name comes twice |
| `MdnReport.CommitField` | src/as2/mdn.rs:322-350 | committing a field keeps the first value of each name |
| `MdnReport.FoldedFieldReads` | src/as2/mdn.rs:351-375 | a value folded over two lines reads as both parts with one space between |
| `MdnReport.ReportRefusesBreaks` | src/as2/inbound.rs:519-535 | no answer is printed exactly when the message id or the local id holds a CR, LF or NUL |
| `MdnReading.NotificationReadsBack` | src/as2/mdn.rs:781-817 | a printed notification reads back as its recipient, message id, disposition and MIC, each without surrounding space |
| `MdnReading.ReportReadsBack` | src/as2/mdn.rs:781-817 | a printed report splits into its text and its notification, octet for octet |
| `MdnVerdict.MicsMatchIff` | src/as2/mdn.rs:31-77 | two written MICs match exactly when digests and algorithms agree |
| `MdnVerdict.FoldedMicReads` | src/as2/mdn.rs:31-60 | a digest folded across header lines, quoted or not, reads as one |
| `MdnVerdict.BareMicMatches` | src/as2/mdn.rs:70-76 | a MIC without an algorithm matches on its digest |
| `MdnVerdict.UndecodableMics` | src/as2/mdn.rs:56-64 | digests that do not both decode are compared as written |
| `MdnMeaning.DeliveredIff` | src/as2/send_client.rs:392-504 | Delivered exactly for an MDN of allowed size, signed where required, verified and pinned where signed, whose one notification part holds an automatic answer to the sent message id with a final recipient, a disposition processed alone or with a warning, and the MIC of the sent message |
| `MdnMeaning.RefusedIff` | src/as2/send_client.rs:392-504 | Refused exactly for such an MDN whose disposition is failed, or processed with an error |
| `MdnMeaning.SaysIs` | src/as2/mdn.rs:286-311 | kind and modifier of a disposition are the texts between its semicolon, slashes, comma and colon |
| `MdnMeaning.OtherAnswerIsIndeterminate` | src/as2/send_client.rs:446-455 | the answer printed for one message is Indeterminate for the sender of any other |
| `MdnAgreement.DispositionReads` | src/as2/mdn.rs:286-311 | the receiver's dispositions are read as processed, with no modifier, a warning or an error |
| `MdnAgreement.OutcomeAgrees` | src/as2/inbound.rs:31-76 | disposition and MIC of an answer come to Delivered, Refused or Indeterminate as the receiver answered |
| `MdnAgreement.PartiesAgree` | src/as2/send_client.rs:392-504 | for every accepted message id and every MIC the printed answer is judged Delivered exactly when the receiver answered processed or duplicate over the same MIC, and Refused for every refusal |
| `MdnAgreement.AnswerAndCheck` | src/as2/send_client.rs:392-504 | printing the answer and then making the checks in their order comes to the same, for every answer |
| `MdnAgreement.AnswerIsEarned` | src/as2/inbound.rs:300-433 | in every run a positive or duplicate answer to a message was earned by a delivery of this message, unless the key's hash collides |
| `MdnAgreement.DeliveredMeansHandled` | src/as2/inbound.rs:300-433 | in every run, when the sender judges the answer to its message Delivered, a delivery of that very message was handled with Ok, recorded and accepted before, unless the key's hash collides |
| `Sbdh.CollectUsed` | src/sbdh.rs:452-470 | the loop records exactly the prefixes of element names and the first prefix in scope of each namespaced attribute |
| `Sbdh.SameMeaningIff` | src/sbdh.rs:439-506 | two scopes give a tree the same resolved names exactly when they agree on the prefixes it leaves free |
| `Sbdh.ExtractionPreservesMeaningIff` | src/sbdh.rs:443-506 | the extracted payload resolves as inside the envelope exactly when every free prefix the envelope binds was recorded and not taken for an own declaration |
| `Sbdh.ExtractionPreservesMeaning` | src/sbdh.rs:443-506 | so it does where no namespace has two prefixes in scope and the scan finds exactly the declared prefixes |
| `Sbdh.ExtractionIsIdempotent` | src/sbdh.rs:471-497 | an extracted element, extracted again on its own, gets nothing added where the scan finds its declarations |
| `Sbdh.NothingToDeclareIff` | src/sbdh.rs:471-476 | nothing is declared again exactly when every prefix in scope is `xml`, found on the start tag or not recorded |
| `Sbdh.SelfContainedIsChanged` | src/sbdh.rs:452-476 | a payload without a free prefix can still get a declaration added |
| `Sbdh.TwoPrefixesLoseMeaning` | src/sbdh.rs:462-470 | with two prefixes for one namespace an attribute can lose its namespace |
| `SbdhScan.StartTagEnd` | src/sbdh.rs:510-524 | the loop finds the first `>` outside quotes |
| `SbdhScan.TagEndIsFound` | src/sbdh.rs:510-524 | on every written start tag that is its own end, whatever the values hold |
| `SbdhScan.OwnDeclarations` | src/sbdh.rs:526-546 | the loop lists exactly what is declared by an `xmlns` behind white space |
| `SbdhScan.DeclarationsAreFound` | src/sbdh.rs:526-546 | on every written start tag these include the declared prefixes, and are exactly they when no value holds white space and `xmlns` |
| `SbdhScan.ValueIsTakenForDeclaration` | src/sbdh.rs:526-546 | a value can be taken for a declaration |
| `SbdhText.ExtractPayload` | src/sbdh.rs:443-508 | the text of the payload with the used, inherited bindings that the scan did not find spliced in behind its name |
| `SbdhText.BuildExtra` | src/sbdh.rs:471-494 | the loop prints these bindings as declarations, in scope order |
| `SbdhText.SplicedTagMeans` | src/sbdh.rs:495-508 | the spliced text is a start tag that opens the same element with these declarations added |
| `SbdhText.WrittenExtractionPreservesMeaning` | src/sbdh.rs:443-546 | for every written payload with quiet values and one prefix per attribute namespace, scan, record and splice give a text that resolves every name as inside the envelope |
| `SbdhText.WrittenExtractionPreservesMeaningIff` | src/sbdh.rs:443-546 | for every written payload they do exactly when every free prefix the envelope binds is recorded as used and not found by the scan of the start tag |
| `SbdhText.WrittenExtractionIsIdempotent` | src/sbdh.rs:443-546 | the extracted text, extracted again on its own, is returned octet for octet |
| `SbdhText.DecoyLosesMeaning` | src/sbdh.rs:443-546 | a value that looks like a declaration makes extraction lose an attribute's namespace |
| `SbdhText.ReturnedUnchangedIff` | src/sbdh.rs:471-497 | the text is returned unchanged exactly when nothing is declared again |

## Left out

- Exactly-once handling: the contract is at-least-once, and a stale holder's handler may still be at work after another delivery accepted.
- Token freshness is assumed: a step draws only tokens not issued before. External decrypters are assumed to answer one operation always alike.
- OpenSSL, CMS and DER, XML signature and encryption, canonicalization, gzip and zlib: foreign code, present as parameters or as what they yield.
- The signature value, the signer's pin and its certificate chain in receipt verification: summed up in the signed statement they yield.
- Error codes and texts: refusals are kept apart only where a theorem needs it.
- Inbound verification before the claim (parsing, authorization, revocation, the message timestamp window): a delivery starts as a verified message.
- HTTP clients and servers, SMP lookup and DNS, telemetry, metrics, serde forms, the concurrency limit: input and output.
- Profile presets, error-kind mapping and the EBMS code tables: finite tables.
- ClientConfig::policy_for and the other configuration checks: single lookups and guards.
- The mail parser's own MIME grammar: the report is split by the RFC 2046 reader, and a header's media type is the text up to the first semicolon.
- The MDN's boundary, a hash of the message id: any boundary without control octets is covered.
- The XML parser: a payload's start tag is read attribute by attribute, its content is taken as parsed, and entities in values are a parameter with the law that reading undoes escaping.
- The digest of a signed element: taken as a function of the resolved element; canonical XML also depends on the prefixes in scope.
- KeySelection: issuer names are compared as lists of attributes already brought to one spelling.
- TwoPass.Open: the opening of a message is any decision procedure that asks a bounded number of key operations.
- Inbound.Handle: concerns one delivery with nothing in between; interleavings are the step system's.
