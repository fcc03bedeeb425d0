/** The interface of the certificate repository that the validator consults.
    Its storage and X.509 parsing are not part of this model: a repository is
    a total function from a fingerprint and a hash algorithm to the outcome of
    the lookup. */
module CertificatesRepository {

  /** The two hash algorithms a scraped fingerprint may have been computed with. */
  datatype HashAlgorithm = SHA1 | SHA256

  /** A certificate fingerprint, as raw bytes. */
  type Fingerprint = seq<bv8>

  /** The exceptions the validator distinguishes, classified by the except
      clause that would catch them:
      - CertificateNotFoundError: the repository knows no certificate with that fingerprint;
      - ValueError(message): a ValueError (or subclass) whose first argument is the string `message`;
      - OtherError(typeName): any other exception, identified by its class name. */
  datatype Exception =
    | CertificateNotFoundError
    | ValueError(message: string)
    | OtherError(typeName: string)

  /** The outcome of a call that either returns a value or raises an exception. */
  datatype Try<+T> = Returns(value: T) | Raises(exception: Exception)

  /** A certificates repository, seen through its one query. */
  datatype Repository<C> = Repository(lookupCertificateWithFingerprint: (Fingerprint, HashAlgorithm) -> Try<C>)
}
