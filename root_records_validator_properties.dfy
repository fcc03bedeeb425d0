/** What `Validate` (and so `ValidateWithRepository`) promises, stated over all inputs. */
module RootRecordsValidatorProperties {
  import opened CertificatesRepository
  import opened TrustStore
  import opened Strings
  import opened RootRecordsValidator

  /** The set of the per-record results, independent of order and multiplicity. */
  ghost function PerRecordResults<C>(repo: Repository<C>, fromCertificate: C -> Try<RootCertificateRecord>,
                                     hashAlgorithm: HashAlgorithm, records: seq<ScrapedRecord>): set<RootCertificateRecord>
  {
    set x | x in records && !Handle(repo, fromCertificate, hashAlgorithm, x).Propagated? ::
      Handle(repo, fromCertificate, hashAlgorithm, x).record
  }

  /** `records[i]` is the first record whose handling propagates, and it propagates `e`. */
  ghost predicate FirstPropagatedAt<C>(repo: Repository<C>, fromCertificate: C -> Try<RootCertificateRecord>,
                                       hashAlgorithm: HashAlgorithm, records: seq<ScrapedRecord>, i: int, e: Exception)
  {
    && 0 <= i < |records|
    && Handle(repo, fromCertificate, hashAlgorithm, records[i]) == Propagated(e)
    && forall j :: 0 <= j < i ==> !Handle(repo, fromCertificate, hashAlgorithm, records[j]).Propagated?
  }

  /** The call succeeds exactly when no record propagates an
      exception; recovered records never stop the others. */
  lemma {:induction false} SucceedsIffNoRecordPropagates<C>(repo: Repository<C>, fromCertificate: C -> Try<RootCertificateRecord>,
                                                            hashAlgorithm: HashAlgorithm, records: seq<ScrapedRecord>)
    ensures Validate(repo, fromCertificate, hashAlgorithm, records).Success?
            <==> forall x :: x in records ==> !Handle(repo, fromCertificate, hashAlgorithm, x).Propagated?
    decreases |records|
  {
    if records != [] {
      var prefix, last := records[..|records| - 1], records[|records| - 1];
      SucceedsIffNoRecordPropagates(repo, fromCertificate, hashAlgorithm, prefix);
      assert records == prefix + [last];
    }
  }

  /** On success the output is exactly the set of per-record results: every
      input record contributes its one record, and nothing else is added. */
  lemma {:induction false} ValidatedIsSetOfPerRecordResults<C>(repo: Repository<C>, fromCertificate: C -> Try<RootCertificateRecord>,
                                                               hashAlgorithm: HashAlgorithm, records: seq<ScrapedRecord>)
    requires Validate(repo, fromCertificate, hashAlgorithm, records).Success?
    ensures Validate(repo, fromCertificate, hashAlgorithm, records).value == PerRecordResults(repo, fromCertificate, hashAlgorithm, records)
    decreases |records|
  {
    if records != [] {
      var prefix, last := records[..|records| - 1], records[|records| - 1];
      ValidatedIsSetOfPerRecordResults(repo, fromCertificate, hashAlgorithm, prefix);
      assert records == prefix + [last];
    }
  }

  /** The call raises `e` exactly when some record propagates `e`
      and no earlier record propagates anything; no partial set is returned. */
  lemma {:induction false} FailsIffFirstPropagation<C>(repo: Repository<C>, fromCertificate: C -> Try<RootCertificateRecord>,
                                                       hashAlgorithm: HashAlgorithm, records: seq<ScrapedRecord>, e: Exception)
    ensures Validate(repo, fromCertificate, hashAlgorithm, records) == Failure(e)
            <==> exists i :: FirstPropagatedAt(repo, fromCertificate, hashAlgorithm, records, i, e)
    decreases |records|
  {
    if records != [] {
      var prefix, last := records[..|records| - 1], records[|records| - 1];
      FailsIffFirstPropagation(repo, fromCertificate, hashAlgorithm, prefix, e);
      SucceedsIffNoRecordPropagates(repo, fromCertificate, hashAlgorithm, prefix);
      if Validate(repo, fromCertificate, hashAlgorithm, records) == Failure(e) {
        if Validate(repo, fromCertificate, hashAlgorithm, prefix).Failure? {
          var i :| FirstPropagatedAt(repo, fromCertificate, hashAlgorithm, prefix, i, e);
          assert FirstPropagatedAt(repo, fromCertificate, hashAlgorithm, records, i, e);
        } else {
          assert FirstPropagatedAt(repo, fromCertificate, hashAlgorithm, records, |prefix|, e);
        }
      }
      if exists i :: FirstPropagatedAt(repo, fromCertificate, hashAlgorithm, records, i, e) {
        var i :| FirstPropagatedAt(repo, fromCertificate, hashAlgorithm, records, i, e);
        if i < |prefix| {
          assert FirstPropagatedAt(repo, fromCertificate, hashAlgorithm, prefix, i, e);
        } else {
          forall x | x in prefix
            ensures !Handle(repo, fromCertificate, hashAlgorithm, x).Propagated?
          {
            var j :| 0 <= j < |prefix| && prefix[j] == x;
            assert records[j] == x;
          }
        }
      }
    }
  }

  /** Found: a record whose certificate is in the repository contributes the
      record built from that certificate. */
  lemma FoundContributesRepositoryRecord<C>(repo: Repository<C>, fromCertificate: C -> Try<RootCertificateRecord>,
                                            hashAlgorithm: HashAlgorithm, records: seq<ScrapedRecord>, i: nat, cert: C)
    requires i < |records|
    requires repo.lookupCertificateWithFingerprint(records[i].fingerprint, hashAlgorithm) == Returns(cert)
    requires fromCertificate(cert).Returns?
    requires Validate(repo, fromCertificate, hashAlgorithm, records).Success?
    ensures fromCertificate(cert).value in Validate(repo, fromCertificate, hashAlgorithm, records).value
  {
    ValidatedIsSetOfPerRecordResults(repo, fromCertificate, hashAlgorithm, records);
    assert records[i] in records;
  }

  /** When the certificate is found, the scraped subject
      name plays no part in what the record contributes. */
  lemma ScrapedNameIgnoredWhenFound<C>(repo: Repository<C>, fromCertificate: C -> Try<RootCertificateRecord>,
                                       hashAlgorithm: HashAlgorithm, fingerprint: Fingerprint, name1: string, name2: string)
    requires Attempt(repo, fromCertificate, hashAlgorithm, fingerprint).Returns?
    ensures Handle(repo, fromCertificate, hashAlgorithm, ScrapedRecord(name1, fingerprint))
            == Handle(repo, fromCertificate, hashAlgorithm, ScrapedRecord(name2, fingerprint))
            == Verified(Attempt(repo, fromCertificate, hashAlgorithm, fingerprint).value)
  {
  }

  /** Not found: the record falls back to exactly the scraped name and
      fingerprint, and a diagnostic naming it is logged. */
  lemma NotFoundFallsBackToScrapedRecord<C>(repo: Repository<C>, fromCertificate: C -> Try<RootCertificateRecord>,
                                            hashAlgorithm: HashAlgorithm, records: seq<ScrapedRecord>, i: nat)
    requires i < |records|
    requires Attempt(repo, fromCertificate, hashAlgorithm, records[i].fingerprint) == Raises(CertificateNotFoundError)
    ensures Handle(repo, fromCertificate, hashAlgorithm, records[i])
            == FellBack(RootCertificateRecord(records[i].subjectName, records[i].fingerprint), CouldNotFind(records[i].subjectName))
    ensures Validate(repo, fromCertificate, hashAlgorithm, records).Success? ==>
            RootCertificateRecord(records[i].subjectName, records[i].fingerprint) in Validate(repo, fromCertificate, hashAlgorithm, records).value
  {
    if Validate(repo, fromCertificate, hashAlgorithm, records).Success? {
      ValidatedIsSetOfPerRecordResults(repo, fromCertificate, hashAlgorithm, records);
      assert records[i] in records;
    }
  }

  /** A ValueError whose message mentions an unsupported ASN.1 string type gets
      the same fallback as a missing certificate, with a parsing diagnostic. */
  lemma UnsupportedAsn1FallsBackToScrapedRecord<C>(repo: Repository<C>, fromCertificate: C -> Try<RootCertificateRecord>,
                                                   hashAlgorithm: HashAlgorithm, records: seq<ScrapedRecord>, i: nat, message: string)
    requires i < |records|
    requires Attempt(repo, fromCertificate, hashAlgorithm, records[i].fingerprint) == Raises(ValueError(message))
    requires Contains(message, UnsupportedAsn1StringType)
    ensures Handle(repo, fromCertificate, hashAlgorithm, records[i])
            == FellBack(RootCertificateRecord(records[i].subjectName, records[i].fingerprint), ParsingError(records[i].subjectName))
    ensures Validate(repo, fromCertificate, hashAlgorithm, records).Success? ==>
            RootCertificateRecord(records[i].subjectName, records[i].fingerprint) in Validate(repo, fromCertificate, hashAlgorithm, records).value
  {
    if Validate(repo, fromCertificate, hashAlgorithm, records).Success? {
      ValidatedIsSetOfPerRecordResults(repo, fromCertificate, hashAlgorithm, records);
      assert records[i] in records;
    }
  }

  /** The marker is recognised wherever it stands in the message. */
  lemma Asn1MarkerAnywhereIsRecoverable(before: string, after: string)
    ensures IsRecoverable(ValueError(before + UnsupportedAsn1StringType + after))
  {
    ContainsInfix(before, UnsupportedAsn1StringType, after);
  }

  /** Any other exception, including a ValueError without the marker, aborts
      the call, whatever the other records do. */
  lemma UnrecognizedErrorAborts<C>(repo: Repository<C>, fromCertificate: C -> Try<RootCertificateRecord>,
                                   hashAlgorithm: HashAlgorithm, records: seq<ScrapedRecord>, i: nat, e: Exception)
    requires i < |records|
    requires Attempt(repo, fromCertificate, hashAlgorithm, records[i].fingerprint) == Raises(e)
    requires !IsRecoverable(e)
    ensures Handle(repo, fromCertificate, hashAlgorithm, records[i]) == Propagated(e)
    ensures Validate(repo, fromCertificate, hashAlgorithm, records).Failure?
  {
    SucceedsIffNoRecordPropagates(repo, fromCertificate, hashAlgorithm, records);
    assert records[i] in records;
  }

  /** A worked example: two scraped names for one found fingerprint give exactly
      one record, the one built from the repository's certificate. */
  lemma TwoNamesOneFoundCertificate<C>(repo: Repository<C>, fromCertificate: C -> Try<RootCertificateRecord>,
                                       hashAlgorithm: HashAlgorithm, fingerprint: Fingerprint, cert: C,
                                       record: RootCertificateRecord, name1: string, name2: string)
    requires repo.lookupCertificateWithFingerprint(fingerprint, hashAlgorithm) == Returns(cert)
    requires fromCertificate(cert) == Returns(record)
    ensures Validate(repo, fromCertificate, hashAlgorithm, [ScrapedRecord(name1, fingerprint), ScrapedRecord(name2, fingerprint)])
            == Success({record})
  {
    var records := [ScrapedRecord(name1, fingerprint), ScrapedRecord(name2, fingerprint)];
    assert records[..1][..0] == [];
    assert records[..1] == [ScrapedRecord(name1, fingerprint)];
    assert records[..|records| - 1] == records[..1];
    assert Handle(repo, fromCertificate, hashAlgorithm, records[0]) == Verified(record);
    assert Handle(repo, fromCertificate, hashAlgorithm, records[1]) == Verified(record);
    assert Validate(repo, fromCertificate, hashAlgorithm, records[..1][..0]) == Success({});
    assert {} + {record} == {record};
    assert Validate(repo, fromCertificate, hashAlgorithm, records[..1]) == Success({record});
    assert {record} + {record} == {record};
  }

  /** Every input record contributes at most one element, so the output is no
      larger than the input. */
  lemma {:induction false} SizeAtMostInputLength<C>(repo: Repository<C>, fromCertificate: C -> Try<RootCertificateRecord>,
                                                    hashAlgorithm: HashAlgorithm, records: seq<ScrapedRecord>)
    requires Validate(repo, fromCertificate, hashAlgorithm, records).Success?
    ensures |Validate(repo, fromCertificate, hashAlgorithm, records).value| <= |records|
    decreases |records|
  {
    if records != [] {
      var prefix := records[..|records| - 1];
      SizeAtMostInputLength(repo, fromCertificate, hashAlgorithm, prefix);
      var before := Validate(repo, fromCertificate, hashAlgorithm, prefix).value;
      var r := Handle(repo, fromCertificate, hashAlgorithm, records[|records| - 1]).record;
      assert |before + {r}| <= |before| + 1 by {
        if r in before { assert before + {r} == before; }
      }
    }
  }

  /** Two records with the same fingerprint whose certificate is found collapse
      to one element whatever their scraped names: dropping one of them changes
      nothing, and the output is smaller than the input. */
  lemma SameFingerprintFoundCollapses<C>(repo: Repository<C>, fromCertificate: C -> Try<RootCertificateRecord>,
                                         hashAlgorithm: HashAlgorithm, records: seq<ScrapedRecord>, i: nat, j: nat)
    requires i < |records| && j < |records| && i != j
    requires records[i].fingerprint == records[j].fingerprint
    requires Attempt(repo, fromCertificate, hashAlgorithm, records[i].fingerprint).Returns?
    ensures Validate(repo, fromCertificate, hashAlgorithm, records).Success?
            <==> Validate(repo, fromCertificate, hashAlgorithm, records[..j] + records[j + 1..]).Success?
    ensures Validate(repo, fromCertificate, hashAlgorithm, records).Success? ==>
            && Validate(repo, fromCertificate, hashAlgorithm, records) == Validate(repo, fromCertificate, hashAlgorithm, records[..j] + records[j + 1..])
            && |Validate(repo, fromCertificate, hashAlgorithm, records).value| < |records|
  {
    var rest := records[..j] + records[j + 1..];
    assert Handle(repo, fromCertificate, hashAlgorithm, records[i]) == Handle(repo, fromCertificate, hashAlgorithm, records[j]);
    assert records[i] in rest by {
      if i < j { assert rest[i] == records[i]; } else { assert rest[i - 1] == records[i]; }
    }
    assert forall x :: x in rest ==> x in records;
    assert forall x :: x in records ==> x in rest || x == records[j] by {
      forall x | x in records ensures x in rest || x == records[j] {
        var k :| 0 <= k < |records| && records[k] == x;
        if k < j { assert rest[k] == x; } else if k > j { assert rest[k - 1] == x; }
      }
    }
    SucceedsIffNoRecordPropagates(repo, fromCertificate, hashAlgorithm, records);
    SucceedsIffNoRecordPropagates(repo, fromCertificate, hashAlgorithm, rest);
    if Validate(repo, fromCertificate, hashAlgorithm, records).Success? {
      ValidatedIsSetOfPerRecordResults(repo, fromCertificate, hashAlgorithm, records);
      ValidatedIsSetOfPerRecordResults(repo, fromCertificate, hashAlgorithm, rest);
      assert PerRecordResults(repo, fromCertificate, hashAlgorithm, records) == PerRecordResults(repo, fromCertificate, hashAlgorithm, rest);
      SizeAtMostInputLength(repo, fromCertificate, hashAlgorithm, rest);
    }
  }

  /** The order of the input does not matter to success, nor to the set returned. */
  lemma OrderIrrelevant<C>(repo: Repository<C>, fromCertificate: C -> Try<RootCertificateRecord>,
                           hashAlgorithm: HashAlgorithm, records1: seq<ScrapedRecord>, records2: seq<ScrapedRecord>)
    requires multiset(records1) == multiset(records2)
    ensures Validate(repo, fromCertificate, hashAlgorithm, records1).Success?
            <==> Validate(repo, fromCertificate, hashAlgorithm, records2).Success?
    ensures Validate(repo, fromCertificate, hashAlgorithm, records1).Success? ==>
            Validate(repo, fromCertificate, hashAlgorithm, records1) == Validate(repo, fromCertificate, hashAlgorithm, records2)
  {
    assert forall x :: x in records1 <==> x in records2 by {
      forall x ensures x in records1 <==> x in records2 {
        assert x in records1 <==> x in multiset(records1);
        assert x in records2 <==> x in multiset(records2);
      }
    }
    SucceedsIffNoRecordPropagates(repo, fromCertificate, hashAlgorithm, records1);
    SucceedsIffNoRecordPropagates(repo, fromCertificate, hashAlgorithm, records2);
    if Validate(repo, fromCertificate, hashAlgorithm, records1).Success? {
      ValidatedIsSetOfPerRecordResults(repo, fromCertificate, hashAlgorithm, records1);
      ValidatedIsSetOfPerRecordResults(repo, fromCertificate, hashAlgorithm, records2);
      assert PerRecordResults(repo, fromCertificate, hashAlgorithm, records1) == PerRecordResults(repo, fromCertificate, hashAlgorithm, records2);
    }
  }

  /** One hash algorithm serves every lookup: two repositories that answer alike
      for the input's fingerprints under that algorithm give the same outcome
      and the same log, whatever they answer under the other algorithm. */
  lemma {:induction false} OnlySelectedAlgorithmMatters<C>(repo1: Repository<C>, repo2: Repository<C>,
                                                           fromCertificate: C -> Try<RootCertificateRecord>,
                                                           hashAlgorithm: HashAlgorithm, records: seq<ScrapedRecord>)
    requires forall x :: x in records ==>
               repo1.lookupCertificateWithFingerprint(x.fingerprint, hashAlgorithm)
               == repo2.lookupCertificateWithFingerprint(x.fingerprint, hashAlgorithm)
    ensures Validate(repo1, fromCertificate, hashAlgorithm, records) == Validate(repo2, fromCertificate, hashAlgorithm, records)
    ensures Diagnostics(repo1, fromCertificate, hashAlgorithm, records) == Diagnostics(repo2, fromCertificate, hashAlgorithm, records)
    decreases |records|
  {
    if records != [] {
      var prefix, last := records[..|records| - 1], records[|records| - 1];
      assert records == prefix + [last];
      OnlySelectedAlgorithmMatters(repo1, repo2, fromCertificate, hashAlgorithm, prefix);
      assert Handle(repo1, fromCertificate, hashAlgorithm, last) == Handle(repo2, fromCertificate, hashAlgorithm, last);
    }
  }

  /** Every logged diagnostic names a record that fell back, by its scraped
      subject name; on success every record that fell back is logged. */
  lemma {:induction false} DiagnosticsNameFallbacks<C>(repo: Repository<C>, fromCertificate: C -> Try<RootCertificateRecord>,
                                                       hashAlgorithm: HashAlgorithm, records: seq<ScrapedRecord>)
    ensures |Diagnostics(repo, fromCertificate, hashAlgorithm, records)| <= |records|
    ensures forall d :: d in Diagnostics(repo, fromCertificate, hashAlgorithm, records) ==>
              exists x :: x in records && Handle(repo, fromCertificate, hashAlgorithm, x) == FellBack(FromScrapedRecord(x.subjectName, x.fingerprint), d)
                          && d.subjectName == x.subjectName
    ensures Validate(repo, fromCertificate, hashAlgorithm, records).Success? ==>
              forall x :: x in records && Handle(repo, fromCertificate, hashAlgorithm, x).FellBack? ==>
                Handle(repo, fromCertificate, hashAlgorithm, x).diagnostic in Diagnostics(repo, fromCertificate, hashAlgorithm, records)
    decreases |records|
  {
    if records != [] {
      var prefix, last := records[..|records| - 1], records[|records| - 1];
      assert records == prefix + [last];
      DiagnosticsNameFallbacks(repo, fromCertificate, hashAlgorithm, prefix);
    }
  }
}
