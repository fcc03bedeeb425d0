/** Reconciliation of scraped (subject name, fingerprint) pairs against a
    certificates repository. A found certificate supplies the record, and its
    canonical name replaces the scraped one. A missing certificate, or one whose
    subject uses an ASN.1 string type the parser does not support, falls back
    to the scraped values. Any other exception aborts the whole call. */
module RootRecordsValidator {
  import opened CertificatesRepository
  import opened TrustStore
  import opened Strings

  /** One pair scraped from a trust store's web page. */
  datatype ScrapedRecord = ScrapedRecord(subjectName: string, fingerprint: Fingerprint)

  /** The error-level log lines the validator emits, by the scraped subject name they mention. */
  datatype Diagnostic =
    | CouldNotFind(subjectName: string)
    | ParsingError(subjectName: string)

  /** The value returned by a call, or the exception it propagated. */
  datatype Result<+T, +E> = Success(value: T) | Failure(error: E)

  /** What happens to one scraped record: its record comes from the repository,
      or it falls back to the scraped values and logs a diagnostic, or the
      exception propagates. */
  datatype Handling =
    | Verified(record: RootCertificateRecord)
    | FellBack(record: RootCertificateRecord, diagnostic: Diagnostic)
    | Propagated(exception: Exception)

  /** The fragment of a ValueError message that marks an unparsable certificate. */
  const UnsupportedAsn1StringType: string := "Unsupported ASN1 string type"

  /** The exceptions the validator catches and recovers from. */
  predicate IsRecoverable(e: Exception)
  {
    e.CertificateNotFoundError? || (e.ValueError? && Contains(e.message, UnsupportedAsn1StringType))
  }

  /** The body of the try block: look the certificate up, then build its record.
      Either call may raise. */
  function Attempt<C>(repo: Repository<C>, fromCertificate: C -> Try<RootCertificateRecord>,
                      hashAlgorithm: HashAlgorithm, fingerprint: Fingerprint): Try<RootCertificateRecord>
  {
    match repo.lookupCertificateWithFingerprint(fingerprint, hashAlgorithm)
    case Returns(cert) => fromCertificate(cert)
    case Raises(e) => Raises(e)
  }

  /** The per-record classification done by the try block and its except clauses. */
  function Handle<C>(repo: Repository<C>, fromCertificate: C -> Try<RootCertificateRecord>,
                     hashAlgorithm: HashAlgorithm, scraped: ScrapedRecord): Handling
  {
    match Attempt(repo, fromCertificate, hashAlgorithm, scraped.fingerprint)
    case Returns(record) => Verified(record)
    case Raises(e) =>
      if !IsRecoverable(e) then Propagated(e)
      else
        var diagnostic := if e.CertificateNotFoundError? then CouldNotFind(scraped.subjectName)
                          else ParsingError(scraped.subjectName);
        FellBack(FromScrapedRecord(scraped.subjectName, scraped.fingerprint), diagnostic)
  }

  /** The result of validating `records` in order: the set of their records, or
      the exception of the first record whose handling propagates one. */
  ghost function Validate<C>(repo: Repository<C>, fromCertificate: C -> Try<RootCertificateRecord>,
                             hashAlgorithm: HashAlgorithm, records: seq<ScrapedRecord>): Result<set<RootCertificateRecord>, Exception>
    decreases |records|
  {
    if records == [] then Success({})
    else
      match Validate(repo, fromCertificate, hashAlgorithm, records[..|records| - 1])
      case Failure(e) => Failure(e)
      case Success(validated) =>
        var handling := Handle(repo, fromCertificate, hashAlgorithm, records[|records| - 1]);
        if handling.Propagated? then Failure(handling.exception)
        else Success(validated + {handling.record})
  }

  /** The diagnostics logged while validating `records` in order, up to the
      record whose exception aborts the call, if any. */
  ghost function Diagnostics<C>(repo: Repository<C>, fromCertificate: C -> Try<RootCertificateRecord>,
                                hashAlgorithm: HashAlgorithm, records: seq<ScrapedRecord>): seq<Diagnostic>
    decreases |records|
  {
    if records == [] then []
    else
      var prefix := records[..|records| - 1];
      var handling := Handle(repo, fromCertificate, hashAlgorithm, records[|records| - 1]);
      if Validate(repo, fromCertificate, hashAlgorithm, prefix).Failure? || !handling.FellBack? then
        Diagnostics(repo, fromCertificate, hashAlgorithm, prefix)
      else
        Diagnostics(repo, fromCertificate, hashAlgorithm, prefix) + [handling.diagnostic]
  }

  /** Once a prefix of the input has raised, the records after it change
      neither the outcome nor the log. */
  lemma {:induction false} FailureIsFinal<C>(repo: Repository<C>, fromCertificate: C -> Try<RootCertificateRecord>,
                                             hashAlgorithm: HashAlgorithm, records: seq<ScrapedRecord>, k: nat)
    requires k <= |records|
    requires Validate(repo, fromCertificate, hashAlgorithm, records[..k]).Failure?
    ensures Validate(repo, fromCertificate, hashAlgorithm, records) == Validate(repo, fromCertificate, hashAlgorithm, records[..k])
    ensures Diagnostics(repo, fromCertificate, hashAlgorithm, records) == Diagnostics(repo, fromCertificate, hashAlgorithm, records[..k])
    decreases |records|
  {
    if k < |records| {
      var prefix := records[..|records| - 1];
      assert prefix[..k] == records[..k];
      FailureIsFinal(repo, fromCertificate, hashAlgorithm, prefix, k);
    } else {
      assert records[..k] == records;
    }
  }

  /** Look every scraped record up in the repository with the one hash
      algorithm given, and collect the resulting records; `log` holds the
      diagnostics emitted, also when the call ends by raising. */
  method ValidateWithRepository<C>(certsRepo: Repository<C>, fromCertificate: C -> Try<RootCertificateRecord>,
                                   hashAlgorithm: HashAlgorithm, parsedRootRecords: seq<ScrapedRecord>)
    returns (result: Result<set<RootCertificateRecord>, Exception>, log: seq<Diagnostic>)
    ensures result == Validate(certsRepo, fromCertificate, hashAlgorithm, parsedRootRecords)
    ensures log == Diagnostics(certsRepo, fromCertificate, hashAlgorithm, parsedRootRecords)
    ensures parsedRootRecords == [] ==> result == Success({}) && log == []
  {
    var validatedRootRecords: set<RootCertificateRecord> := {};
    log := [];
    for i := 0 to |parsedRootRecords|
      invariant Validate(certsRepo, fromCertificate, hashAlgorithm, parsedRootRecords[..i]) == Success(validatedRootRecords)
      invariant log == Diagnostics(certsRepo, fromCertificate, hashAlgorithm, parsedRootRecords[..i])
    {
      var ScrapedRecord(scrapedSubjName, fingerprint) := parsedRootRecords[i];
      assert parsedRootRecords[..i + 1][..i] == parsedRootRecords[..i];
      var attempt: Try<RootCertificateRecord>;
      match certsRepo.lookupCertificateWithFingerprint(fingerprint, hashAlgorithm) {
        case Returns(cert) =>
          attempt := fromCertificate(cert);
        case Raises(e) =>
          attempt := Raises(e);
      }
      match attempt {
        case Returns(record) =>
          validatedRootRecords := validatedRootRecords + {record};
        case Raises(CertificateNotFoundError) =>
          log := log + [CouldNotFind(scrapedSubjName)];
          validatedRootRecords := validatedRootRecords + {FromScrapedRecord(scrapedSubjName, fingerprint)};
        case Raises(ValueError(message)) =>
          if Contains(message, UnsupportedAsn1StringType) {
            log := log + [ParsingError(scrapedSubjName)];
            validatedRootRecords := validatedRootRecords + {FromScrapedRecord(scrapedSubjName, fingerprint)};
          } else {
            FailureIsFinal(certsRepo, fromCertificate, hashAlgorithm, parsedRootRecords, i + 1);
            return Failure(ValueError(message)), log;
          }
        case Raises(OtherError(typeName)) =>
          FailureIsFinal(certsRepo, fromCertificate, hashAlgorithm, parsedRootRecords, i + 1);
          return Failure(OtherError(typeName)), log;
      }
    }
    assert parsedRootRecords[..|parsedRootRecords|] == parsedRootRecords;
    return Success(validatedRootRecords), log;
  }
}
