/** What the search records by its own means is true: a factor, a base-2 witness and a
    Proth certificate each decide their candidate (src/mvp/search_pipeline.cpp). */
module SearchSoundness {
  import opened NumberTheory
  import opened MachineArithmetic
  import opened Decimal
  import opened DelimitedText
  import Proth
  import ProthText
  import StrongTest
  import opened SearchLedger
  import opened SearchBatch
  import opened Wrappers

  /** What is_base2_strong_probable_prime_u64 answers. */
  ghost predicate PassesBase2(value: nat) {
    value >= 2 && value <= MAX_U64
    && var t := StrongTest.TrialDivide(value, StrongTest.SMALL_PRIMES);
      t == StrongTest.Prime || (t == StrongTest.Undecided && StrongTest.StrongProbablePrime(2, value))
  }

  /** Answers of the CPU test and of the native prover, and a sieve witness that is no unit. */
  ghost predicate NativeAnswer(job: Job, i: nat, a: Answers)
    requires i < job.Count() && |job.factors| == job.Count()
  {
    var value := job.candidates[i].value;
    && value <= MAX_U64 && job.factors[i] != 1 && (a.prp.PrpComposite? ==> !PassesBase2(value))
    && (a.certificate.Some? ==> exists c: Proth.Certificate {:trigger Proth.GoodCertificate(c)} ::
          Proth.GoodCertificate(c) && c.value == value && a.certificate.value == ProthText.CertificateText(c))
  }

  lemma PrimesPass(value: nat)
    requires IsPrime(value) && value <= MAX_U64
    ensures PassesBase2(value)
  {
    StrongTest.TrialNeverRejectsPrimes(value, StrongTest.SMALL_PRIMES);
    if StrongTest.TrialDivide(value, StrongTest.SMALL_PRIMES) == StrongTest.Undecided {
      StrongTest.UndecidedIsOdd(value);
      DivModUnique(2, value, 0, 2);
      StrongTest.PrimesAreStrong(value, 2);
    }
  }

  /** Every self-verified record of a ledger is right about its candidate. */
  lemma RecordsAreTrue(job: Job, answers: nat -> Answers, os: seq<Outcome>, i: nat)
    requires |job.factors| == job.Count() && Follows(job, answers, os) && i < |os| && NativeAnswer(job, i, answers(i))
    ensures os[i].SieveFactor? || os[i].Base2? ==> !IsPrime(job.candidates[i].value)
    ensures os[i].Certified? ==> IsPrime(job.candidates[i].value)
  {
    var value, a := job.candidates[i].value, answers(i);
    assert Commit(job, i, a) == Ok(os[i]);
    match os[i] {
      case SieveFactor(factor) =>
        if IsPrime(value) {
          PrimeDivisorIs(value, factor);
        }
      case Base2 =>
        if IsPrime(value) {
          PrimesPass(value);
        }
      case Certified(_, _) =>
        var c: Proth.Certificate :| Proth.GoodCertificate(c) && c.value == value;
        Proth.ProthTheorem(c.k, c.n, c.value, c.base);
      case ByPari(_, _, _) =>
    }
  }

  lemma FixedTexts()
    ensures Without(ProthText.TEXT_HEAD, '\n') && Without(ProthText.TEXT_K, '\n') && Without(ProthText.TEXT_N, '\n')
    ensures Without(ProthText.TEXT_RESIDUE, '\n') && Without(ProthText.TEXT_VALUE, '\n')
      && Without(ProthText.TEXT_WITNESS, '\n')
    ensures Without(ProthText.TEXT_END, '\n') && Without(Proth.CERTIFICATE_FORMAT, '\n')
  {
  }

  /** A certificate is one line of its segment. */
  lemma CertificateIsLine(c: Proth.Certificate)
    requires c.formatVersion == Proth.CERTIFICATE_FORMAT
    ensures Without(ProthText.CertificateText(c), '\n')
  {
    FixedTexts();
    DecimalClean(c.k);
    DecimalClean(c.n);
    DecimalClean(c.residue);
    DecimalClean(c.value);
    DecimalClean(c.base);
    hide ToDecimal;
  }
}
