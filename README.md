# Inquiry intake service — a Dafny model

This project models the request-handling core of an enrollment-inquiry web
service (`server.js`). A prospective student posts a form with a phone
number, an e-mail address, a grade label, a program name and an optional
message. The handler checks the form in a fixed order and answers with a
status code and a message. It saves the inquiry through a document schema,
which trims the phone and e-mail, lower-cases the e-mail and restricts the
grade and program to closed lists. An administrator can list every stored
inquiry, newest first. A health probe answers "ok".

Modules:

- `Wrappers`: `Option` (a form field that may be absent) and `Result`.
- `Text`: the ECMAScript whitespace class (what `\s` matches and what `trim`
  removes), `Trim`, ASCII `ToLower`, and `StripSeparators`, the
  `replace(/[\s-]/g, '')` applied before the phone check.
- `Patterns`: the e-mail pattern `^[^\s@]+@[^\s@]+\.[^\s@]+$` and the mobile
  pattern `^1[3-9]\d{9}$`, with their characterisations.
- `Schema`: the stored `Inquiry`, the two enumerations, the schema setters
  and defaults (`Normalize`) and validators (`Violation`, `Validate`).
- `Listing`: the newest-first order of the listing, as an insertion sort on
  `submittedAt`.
- `Intake`: the request `Payload`, the outcome classification (`Screen`,
  `Decide`), the status mapping (`Reply`), the health probe, and the `Store`
  class. Its `records: seq<Inquiry>` field is the persistent collection.
  `Submit` appends to it and `Contacts` reads it.

The handler's own checks and the record construction are pure functions.
The write is a `Store` method that changes `records`. `Store.Valid()` states
that invalid values never reach storage. The clock reading (`now`) and the
storage collaborator's success (`available`) are parameters.

The e-mail pattern is defined as the regular expression reads: an '@' and a
later '.' split the string into three non-empty runs of `[^\s@]`.
`EmailPatternShape` proves this equals the plain description: no whitespace,
exactly one '@', a non-empty local part, and a '.' in the domain part that is
neither its first nor its last character.

## Model

| member | source | states |
|---|---|---|
| `Text.IsSpace` | server.js:88-98 | definition: the ECMAScript WhiteSpace and LineTerminator code points (tab, line feed, vertical tab, form feed, carriage return, space, U+00A0, U+1680, U+2000–U+200A, U+2028, U+2029, U+202F, U+205F, U+3000, U+FEFF), which `\s` matches and `trim` removes |
| `Text.Trim` | server.js:37 | the result has no whitespace at either end; it is a contiguous middle of the input and everything cut off on both sides is whitespace |
| `Text.TrimIdempotent` | server.js:37 | trimming twice equals trimming once |
| `Text.TrimNoSpace` | server.js:42 | a string without whitespace is its own trim |
| `Text.ToLower` | server.js:43 | lower-casing keeps the length, maps each character on its own and leaves no upper-case ASCII letter |
| `Text.ToLowerIdempotent` | server.js:43 | lower-casing twice equals lower-casing once |
| `Text.LowerKeepsTrimmed` | server.js:42-43 | lower-casing a trimmed string leaves it trimmed |
| `Text.TrimLowerCommute` | server.js:39-43 | trimming and lower-casing commute, so the order in which the schema runs the e-mail's two setters does not change the stored address |
| `Text.StripSeparators` | server.js:98 | the stripped phone is no longer than the input and holds no whitespace or hyphen |
| `Text.StripKeeps` | server.js:98 | a character survives stripping exactly when it occurs in the input and is not whitespace or '-' |
| `Text.StripAppend` | server.js:98 | stripping distributes over concatenation |
| `Text.StripClean` | server.js:98 | a string without whitespace or hyphens is left as it is |
| `Text.StripIgnoresTrim` | server.js:97-98 | stripping the trimmed phone gives the same digits as stripping the raw phone |
| `Patterns.EmailPatternShape` | server.js:88-89 | the e-mail regular expression accepts exactly the strings with no whitespace, one '@', a non-empty local part and a '.' inside the domain part, not at its start or end |
| `Patterns.MatchesEmail` | server.js:88 | definition: the e-mail regular expression, as a non-empty run of non-space, non-'@' characters, then '@', then a non-empty run, then '.', then a non-empty run, covering the whole string |
| `Patterns.IsDigit` | server.js:97 | definition: `\d` without the `u` flag, the ASCII digits 0–9 |
| `Patterns.MatchesMobile` | server.js:97 | definition: the mobile pattern, eleven characters, a leading '1', a second digit from 3 to 9, then nine digits |
| `Patterns.IsValidPhone` | server.js:97-98 | definition: the phone check applies the mobile pattern to the phone with all whitespace and hyphens removed |
| `Patterns.EmailUnchangedByTrim` | server.js:39-43 | an address that passed the check has no whitespace, so the schema's trim leaves it unchanged |
| `Patterns.LowerKeepsEmail` | server.js:39-43 | lower-casing does not change whether the e-mail pattern accepts an address |
| `Patterns.TrimKeepsPhone` | server.js:34-38 | the trimmed phone passes the phone check exactly when the raw phone does |
| `Patterns.ValidPhoneLength` | server.js:34-38 | an accepted phone keeps at least eleven characters after trimming, so the required validator never fails for it |
| `Schema.Normalize` | server.js:33-70 | the stored phone is the trimmed phone and the stored e-mail is the e-mail trimmed and lower-cased (the library runs the setters in reverse order of declaration, so lower-casing comes first, and the order does not matter), so both are trimmed and the e-mail has no upper-case letter; the labels are kept; a missing message becomes ''; the creation time is `now` |
| `Schema.EnumerationSizes` | server.js:45-61 | the constants `GradeLevels` (server.js:48) and `Projects` (server.js:53-60) list 10 and 6 labels, each once; they are copied from the schema character for character, including the fullwidth comma in the last program name |
| `Schema.Conforms` | server.js:34-61 | definition: phone and e-mail are non-empty, the grade is one of the 10 labels and the program is one of the 6 names |
| `Schema.Violation` | server.js:34-61 | no validator fails exactly when phone and e-mail are non-empty, the grade is one of the 10 labels and the program one of the 6 names |
| `Schema.Validate` | server.js:33-70 | saving either yields the normalised document, which conforms to the schema, or fails; an enumeration failure names the label that is outside its list |
| `Listing.Insert` | server.js:133 | inserting into a newest-first sequence keeps it newest-first and adds exactly that one entry |
| `Listing.SortNewestFirst` | server.js:133 | the listing is a permutation of the store with `submittedAt` non-increasing |
| `Listing.ListingDetermined` | server.js:133 | when no two records share a submission time, the only newest-first permutation of a store kept in strictly decreasing time order is that store itself, so the listing does not depend on how ties are ordered |
| `Intake.MessagesDistinct` | server.js:80-126 | the constants `MissingFieldMessage` (server.js:83), `InvalidEmailMessage` (server.js:92), `InvalidPhoneMessage` (server.js:101), `CreatedMessage` (server.js:118) and `SubmitFailedMessage` (server.js:125) hold the handler's messages as written, and the three client-error messages differ from each other and from the success and failure messages; `ListFailedMessage` is server.js:142 |
| `Intake.Reply` | server.js:80-126 | success and status 201 with the confirmation message exactly for a created record; 400 exactly for the three client errors, each with its own message (missing field, bad address, bad phone); 500 with the generic message exactly for a failed save |
| `Intake.Present` | server.js:80 | definition: a field is truthy when it was sent and is not the empty string |
| `Intake.AllPresent` | server.js:80 | definition: phone, e-mail, grade and program are all truthy; the message is not required |
| `Intake.MessageOrEmpty` | server.js:111 | definition: the message when it is truthy, otherwise the empty string |
| `Intake.Screen` | server.js:77-112 | a missing field is reported first, then a bad address, then a bad phone; the draft exists exactly when all three checks pass and carries the raw phone and e-mail, the grade and program as sent, and `message` or '' |
| `Intake.Decide` | server.js:75-128 | a client error from the checks is the outcome; past the checks the outcome is a store error or a creation, and a creation needs an available store and carries the clock reading |
| `Intake.ScreenedDraftHasRequired` | server.js:33-44 | a payload that passed the handler's checks never fails a required validator |
| `Intake.AcceptedIff` | server.js:80-119 | a record is created exactly when all four fields are present, both patterns accept, the grade and program are in their lists, and the write succeeds |
| `Intake.SchemaFailureIsEnum` | server.js:45-61 | after the handler's checks, a schema failure is always an enumeration failure, caused by a grade or program outside its list |
| `Intake.CreatedRecord` | server.js:106-112 | an acceptable submission with a working store yields exactly one record: the trimmed raw phone (hyphens and inner spaces kept), the lower-cased address, the labels as sent, the message sent or '', and the timestamp `now` |
| `Intake.CreatedIsWellFormed` | server.js:33-70 | the record an acceptable submission creates has a phone and e-mail that pass the handler's patterns, both trimmed, an e-mail with no upper-case letter, and labels from the enumerations |
| `Intake.ShortPhoneRefused` | server.js:96-103 | with the other fields present and a good address, the phone "123" is answered 400 with the phone message |
| `Intake.RefusalMessages` | server.js:80-103 | for every payload, whatever the storage: a missing field is answered 400 with the missing-field message; otherwise a bad address gets 400 with the address message; otherwise a bad phone gets 400 with the phone message |
| `Intake.AcceptedReply` | server.js:106-119 | an acceptable submission written to available storage is answered 201, success, with the confirmation message |
| `Intake.Written` | server.js:114 | the save adds at most one record: exactly the created record when there is one, and nothing otherwise |
| `Intake.Health` | server.js:148-150 | the probe answers status "ok" with the clock reading and reads no stored state |
| `Intake.Store.Submit` | server.js:75-128 | the response is that of `Decide`; the store gains exactly the created record and nothing else changes; otherwise it is unchanged; the well-formedness invariant is kept |
| `Intake.Store.constructor` | server.js:72 | definition: the collection starts empty, which satisfies the store invariant |
| `Intake.Store.Valid` | server.js:33-70 | definition: every stored record is well formed, that is its phone and e-mail pass the handler's patterns, both are trimmed, the e-mail has no upper-case letter and it conforms to the schema |
| `Intake.Store.Contacts` | server.js:131-145 | when storage answers, status 200 and the data is a permutation of the whole store, newest first; otherwise status 500 with the generic message; it modifies nothing |

## Left out

- HTTP plumbing is not modelled: middleware, CORS, body parsing, static files and `app.listen` (server.js:1-16, 152-154). JSON serialisation is not modelled either; responses are status/success/message values.
- The MongoDB connection and its host-name logging (server.js:18-30) are not modelled. The collection is the `records` sequence. Whether the driver accepts a write or a query (connectivity, buffering timeouts) is the `available` parameter.
- `console.error` logging of failures (server.js:122, 139) is left out.
- `Date.now` and `new Date()` (server.js:68, 149) are the `now` parameter.
- Request fields are `Option<string>`. Non-string values are not modelled: a numeric `phone` makes `.replace` throw (500), and mongoose would cast other types. A missing request body is not modelled either.
- Strings are sequences of Unicode scalar values, whereas JavaScript strings are UTF-16 code units. A lone surrogate (which a JSON body can carry) has no counterpart in the model. On every string the model can represent, each check and setter gives the same outcome as the code.
- `Text.ToLower`: only ASCII letters are mapped. JavaScript's full Unicode case mapping of non-ASCII letters (some of which change length) is not modelled.
- `Listing.SortNewestFirst`: MongoDB does not fix the order of records with equal `submittedAt`. The model proves only the permutation and non-increasing order, and its own tie order is one possible answer. When submission times are distinct, `Listing.ListingDetermined` shows that the order is fully determined.
- `Intake.Store.constructor` starts from an empty collection. Records written by other means are outside the model, and `Store.Valid` assumes every stored record came through `Submit`.
- Concurrency between requests is not modelled; each call is one atomic step on the store.
- `ecosystem.config.js` (process-manager settings) has no logic and is not part of this model.
- A handler-side enumeration check answering 400 is not modelled, because the code has none: an enumeration violation surfaces as a save failure and is answered 500 (server.js:114, 121-126).
