# Root records validator, modelled in Dafny

This project models `RootRecordsValidator.validate_with_repository` from the
Trust Stores Observatory. The method takes a list of `(subject_name, fingerprint)`
pairs scraped from a trust store's web page and looks each fingerprint up in the
local certificates repository, with one hash algorithm (SHA-1 or SHA-256) for
every lookup. Then, record by record:

- if the certificate is found, the record built from it is added, so the
  repository's canonical subject name replaces the scraped one;
- on `CertificateNotFoundError`, an error is logged and a record built from the
  scraped name and fingerprint is added;
- on a `ValueError` whose message contains `Unsupported ASN1 string type`, the
  same fallback applies, with a parsing-error log line;
- any other exception, including any other `ValueError`, propagates and aborts
  the call, so no set is returned.

Files and modules:

- `certificates_repository.dfy` (`CertificatesRepository`): the hash-algorithm
  selector, fingerprints as bytes, the exceptions the validator tells apart, the
  `Try` outcome of a call that may raise, and the repository as a total lookup
  function.
- `trust_store.dfy` (`TrustStore`): `RootCertificateRecord` (subject name and
  fingerprint, compared structurally) and `FromScrapedRecord`.
- `strings.dfy` (`Strings`): Python's substring test `fragment in text`.
- `root_records_validator.dfy` (`RootRecordsValidator`): the per-record
  classification `Handle`, the specification `Validate` (the set of records, or
  the first exception raised) and `Diagnostics` (the log lines emitted), and the
  imperative `ValidateWithRepository`. It is a `for` loop that grows a local set
  and returns early when an exception propagates. It is proved equal to the
  specification.
- `root_records_validator_properties.dfy` (`RootRecordsValidatorProperties`):
  lemmas about `Validate` over all inputs.

Collaborators are parameters:

- The repository lookup is a function `(Fingerprint, HashAlgorithm) -> Try<C>`
  over an abstract certificate type `C`.
- `RootCertificateRecord.from_certificate` is a function `C -> Try<RootCertificateRecord>`.
  In the source it runs inside the same `try` block as the lookup, so it may
  raise too, and its exceptions are classified by the same except clauses. The
  model keeps this: `Attempt` is the whole try body. When the lookup itself
  raises, `Attempt` raises the same exception, so the lemmas stated over
  `Attempt` cover the lookup's exceptions directly.
- The two `logging.error` calls are the `log` out-parameter of the method: one
  `Diagnostic` per fallback, naming the scraped subject. Lines logged before an
  abort are kept, as they would already have been emitted.

The unparsable-certificate case is recognised by the substring test
`'Unsupported ASN1 string type' in e.args[0]` on the caught `ValueError`; the
model performs the same test (`Strings.Contains`) on the error's message.

## Model

| member | source | states |
|---|---|---|
| RootRecordsValidator.ValidateWithRepository | trust_stores_observatory/store_fetcher/root_records_validator.py:17-43 | The loop that adds to the set returns exactly `Validate` of its inputs: the set of records, or the exception of the first record that propagates one. Its log is exactly `Diagnostics`. An empty input gives the empty set and no log. |
| RootRecordsValidator.FailureIsFinal | trust_stores_observatory/store_fetcher/root_records_validator.py:40-41 | Once a prefix of the input has raised, later records change neither the outcome nor the log: the raise aborts the rest of the loop. |
| Strings.ContainsIffOccurs | trust_stores_observatory/store_fetcher/root_records_validator.py:34 | The substring test holds exactly when the fragment occurs at some position of the text, in both directions. |
| Strings.ContainsInfix | trust_stores_observatory/store_fetcher/root_records_validator.py:34 | A fragment is found wherever it stands in the text. |
| RootRecordsValidatorProperties.Asn1MarkerAnywhereIsRecoverable | trust_stores_observatory/store_fetcher/root_records_validator.py:33-34 | A ValueError whose message contains "Unsupported ASN1 string type" anywhere is one the validator recovers from. |
| RootRecordsValidatorProperties.SucceedsIffNoRecordPropagates | trust_stores_observatory/store_fetcher/root_records_validator.py:24-41 | The call returns a set exactly when no record's exception propagates. Recovered records never stop the others, in both directions. |
| RootRecordsValidatorProperties.ValidatedIsSetOfPerRecordResults | trust_stores_observatory/store_fetcher/root_records_validator.py:22-39 | On success the output is exactly the set of per-record results: each input record contributes its one record and nothing else is added. |
| RootRecordsValidatorProperties.FailsIffFirstPropagation | trust_stores_observatory/store_fetcher/root_records_validator.py:25-41 | The call raises `e` exactly when some record propagates `e` and no earlier record propagates anything. No partial set is returned, even after earlier records were processed. |
| RootRecordsValidatorProperties.FoundContributesRepositoryRecord | trust_stores_observatory/store_fetcher/root_records_validator.py:26-27 | When the lookup returns a certificate and its record is built, that record is in the output. |
| RootRecordsValidatorProperties.ScrapedNameIgnoredWhenFound | trust_stores_observatory/store_fetcher/root_records_validator.py:26-27 | When the certificate is found, the handling is `Verified` with the repository's record, and the scraped subject name has no effect on it. |
| RootRecordsValidatorProperties.NotFoundFallsBackToScrapedRecord | trust_stores_observatory/store_fetcher/root_records_validator.py:28-32 | A `CertificateNotFoundError` falls back to a record with exactly the scraped name and fingerprint, logs a "could not find" line for that name, and on success that record is in the output. |
| RootRecordsValidatorProperties.UnsupportedAsn1FallsBackToScrapedRecord | trust_stores_observatory/store_fetcher/root_records_validator.py:33-39 | A ValueError containing the marker falls back to exactly the scraped values, logs a parsing-error line for that name, and on success that record is in the output. |
| RootRecordsValidatorProperties.UnrecognizedErrorAborts | trust_stores_observatory/store_fetcher/root_records_validator.py:40-41 | An exception other than those two, including a ValueError without the marker, propagates unchanged, and the whole call fails whatever the other records do. |
| RootRecordsValidatorProperties.TwoNamesOneFoundCertificate | trust_stores_observatory/store_fetcher/root_records_validator.py:26-27 | Worked example: two scraped names for one found fingerprint produce exactly one record, the one built from the repository's certificate. |
| RootRecordsValidatorProperties.SizeAtMostInputLength | trust_stores_observatory/store_fetcher/root_records_validator.py:22-39 | On success the output has at most as many elements as the input has records. |
| RootRecordsValidatorProperties.SameFingerprintFoundCollapses | trust_stores_observatory/store_fetcher/root_records_validator.py:26-27 | Two input records with the same found fingerprint collapse, whatever their scraped names. Dropping one leaves success and the output unchanged, and the output is strictly smaller than the input. |
| RootRecordsValidatorProperties.OrderIrrelevant | trust_stores_observatory/store_fetcher/root_records_validator.py:24 | Two inputs that are permutations of each other either both succeed, with the same set, or both fail. |
| RootRecordsValidatorProperties.OnlySelectedAlgorithmMatters | trust_stores_observatory/store_fetcher/root_records_validator.py:19-26 | Every lookup uses the one given algorithm. Repositories that agree on the input's fingerprints under it give the same outcome and the same log, whatever they answer under the other algorithm. |
| RootRecordsValidatorProperties.DiagnosticsNameFallbacks | trust_stores_observatory/store_fetcher/root_records_validator.py:28-38 | Every log line names, by its scraped subject, an input record that fell back, and there are no more lines than records. On success, every record that fell back is logged. |

## Left out

- The internals of the repository lookup: disk storage and X.509 parsing. The lookup is an abstract total function returning an outcome.
- The internals of `RootCertificateRecord.from_certificate` and `from_scraped_record`. The first is an abstract function that may raise. The second builds a record from exactly the scraped values.
- The `cryptography` hash classes: no hashing happens here, so the algorithm is a two-value enumeration.
- The text of the log messages and the logging machinery. Only which line is logged, and for which scraped name, is modelled.
- A `ValueError` whose `args` is empty or whose first argument is not a string. This is a modelling choice: such a case is treated as non-recoverable, an `OtherError` that propagates. Python behaves so for an empty `args` (an IndexError) and for a non-container first argument such as an int or None (a TypeError); for a container first argument (a list, tuple, set or dict) Python would instead test element membership, and recover when the container holds exactly the marker string.
- Exceptions raised while adding to the set, such as a failing hash of a record, are not modelled.
- Two calls with the same inputs return the same result, because `ValidateWithRepository` is proved equal to the function `Validate`; no separate statement is made of it.
- OrderIrrelevant: when both orders fail, it does not claim that they raise the same exception. The first failing record depends on the order, and the source promises nothing here.
- SameFingerprintFoundCollapses: states that the two outcomes are equal only when the call succeeds. When it fails, it states only that both inputs fail.
