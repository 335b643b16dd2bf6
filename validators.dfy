/** `MailAddressValidator.IsValid`: whether a string is a mail address,
    by the pattern `EmailPattern` describes. */
module MailAddressValidator {
  import opened Common
  import opened EmailPattern
  import opened Ascii

  /** False for null; otherwise whether the whole string matches. */
  function IsValid(value: Option<string>): (r: bool)
    ensures r <==> value.Some? && Matches(value.value)
  {
    value.Some? && Recognize(value.value)
  }

  /** Null, the empty string and white space are not addresses. */
  lemma RejectsBlank(value: Option<string>)
    requires value.None? || IsNullOrWhiteSpace(value.value)
    ensures !IsValid(value)
  {
    if value.Some? {
      WhiteSpaceNotMatches(value.value);
    }
  }

  /** A valid address has exactly one '@'. */
  lemma ValidHasSingleAt(s: string)
    requires IsValid(Some(s))
    ensures exists i :: 0 <= i < |s| && s[i] == '@' && forall k :: 0 <= k < |s| && s[k] == '@' ==> k == i
  {
    SingleAt(s);
  }

  // ------------------------------------------------------------ the test suite's examples

  lemma AcceptsShort()
    ensures IsValid(Some("joe@doe.com"))
  {
    assert "joe@doe." + "com" == "joe@doe.com";
    assert Scan(Start, "joe@doe.", 0) == Segment(0, true, true);
    assert Scan(Segment(0, true, true), "com", 0) == Segment(3, true, true);
    ScanAppend(Start, "joe@doe.", "com");
  }

  lemma AcceptsUnderscore()
    ensures IsValid(Some("valid_mail@gmail.com"))
  {
    assert "valid_mail@gmail" + ".com" == "valid_mail@gmail.com";
    UnderscoreLocalPart();
    assert Scan(Segment(5, true, false), ".com", 0) == Segment(3, true, true);
    ScanAppend(Start, "valid_mail@gmail", ".com");
  }

  lemma UnderscoreLocalPart()
    ensures Scan(Start, "valid_mail@gmail", 0) == Segment(5, true, false)
  {
    assert "valid_ma" + "il@gmail" == "valid_mail@gmail";
    assert Scan(Start, "valid_ma", 0) == LocalAlnum;
    assert Scan(LocalAlnum, "il@gmail", 0) == Segment(5, true, false);
    ScanAppend(Start, "valid_ma", "il@gmail");
  }

  lemma AcceptsPlus()
    ensures IsValid(Some("plus+trick@gmail.com"))
  {
    assert "plus+trick@gmail" + ".com" == "plus+trick@gmail.com";
    PlusLocalPart();
    assert Scan(Segment(5, true, false), ".com", 0) == Segment(3, true, true);
    ScanAppend(Start, "plus+trick@gmail", ".com");
  }

  lemma PlusLocalPart()
    ensures Scan(Start, "plus+trick@gmail", 0) == Segment(5, true, false)
  {
    assert "plus+tri" + "ck@gmail" == "plus+trick@gmail";
    assert Scan(Start, "plus+tri", 0) == LocalAlnum;
    assert Scan(LocalAlnum, "ck@gmail", 0) == Segment(5, true, false);
    ScanAppend(Start, "plus+tri", "ck@gmail");
  }

  /** The local part of the longest accepted example. */
  lemma DottedLocalPart()
    ensures Scan(Start, "super.long.mail.address@", 0) == Segment(0, true, false)
  {
    assert "super.lo" + "ng.mail." == "super.long.mail.";
    assert "super.long.mail." + "address@" == "super.long.mail.address@";
    assert Scan(Start, "super.lo", 0) == LocalAlnum;
    assert Scan(LocalAlnum, "ng.mail.", 0) == LocalSeparator;
    ScanAppend(Start, "super.lo", "ng.mail.");
    assert Scan(LocalSeparator, "address@", 0) == Segment(0, true, false);
    ScanAppend(Start, "super.long.mail.", "address@");
  }

  /** The domain of the longest accepted example. */
  lemma DottedDomain()
    ensures Scan(Segment(0, true, false), "that.is.valid", 0) == Segment(5, true, true)
  {
    assert "that.is." + "valid" == "that.is.valid";
    assert Scan(Segment(0, true, false), "that.is.", 0) == Segment(0, true, true);
    assert Scan(Segment(0, true, true), "valid", 0) == Segment(5, true, true);
    ScanAppend(Segment(0, true, false), "that.is.", "valid");
  }

  lemma AcceptsDotted()
    ensures IsValid(Some("super.long.mail.address@that.is.valid"))
  {
    assert "super.long.mail.address@" + "that.is.valid" == "super.long.mail.address@that.is.valid";
    DottedLocalPart();
    DottedDomain();
    ScanAppend(Start, "super.long.mail.address@", "that.is.valid");
  }

  /** The local part shared by the rejected examples, up to its last
      character. */
  lemma FakeMailPrefix()
    ensures Scan(Start, "fake_mail_addres", 0) == LocalAlnum
  {
    assert "fake_mai" + "l_addres" == "fake_mail_addres";
    assert Scan(Start, "fake_mai", 0) == LocalAlnum;
    assert Scan(LocalAlnum, "l_addres", 0) == LocalAlnum;
    ScanAppend(Start, "fake_mai", "l_addres");
  }

  lemma RejectsNoAt()
    ensures !IsValid(Some("fake_mail_address"))
  {
    assert "fake_mail_addres" + "s" == "fake_mail_address";
    FakeMailPrefix();
    assert Scan(LocalAlnum, "s", 0) == LocalAlnum;
    ScanAppend(Start, "fake_mail_addres", "s");
  }

  lemma RejectsNoDomain()
    ensures !IsValid(Some("fake_mail_address@"))
  {
    assert "fake_mail_addres" + "s@" == "fake_mail_address@";
    FakeMailPrefix();
    assert Scan(LocalAlnum, "s@", 0) == Segment(0, true, false);
    ScanAppend(Start, "fake_mail_addres", "s@");
  }

  lemma RejectsDotDomain()
    ensures !IsValid(Some("fake_mail_address@."))
  {
    assert "fake_mail_addres" + "s@." == "fake_mail_address@.";
    FakeMailPrefix();
    assert Scan(LocalAlnum, "s@.", 0) == Reject;
    ScanAppend(Start, "fake_mail_addres", "s@.");
  }

  lemma RejectsNoDot()
    ensures !IsValid(Some("fake_mail_address@biz"))
  {
    assert "fake_mail_addres" + "s@biz" == "fake_mail_address@biz";
    FakeMailPrefix();
    assert Scan(LocalAlnum, "s@biz", 0) == Segment(3, true, false);
    ScanAppend(Start, "fake_mail_addres", "s@biz");
  }

  lemma RejectsEmptyLabel()
    ensures !IsValid(Some("fake_mail_address@.dev"))
  {
    assert "fake_mail_addres" + "s@.dev" == "fake_mail_address@.dev";
    FakeMailPrefix();
    assert Scan(LocalAlnum, "s@.dev", 0) == Reject;
    ScanAppend(Start, "fake_mail_addres", "s@.dev");
  }

  lemma RejectsComma()
    ensures !IsValid(Some("fake_mai,l_address@ea.it"))
  {
    assert "fake_mai" + ",l_addre" == "fake_mai,l_addre";
    assert "fake_mai,l_addre" + "ss@ea.it" == "fake_mai,l_address@ea.it";
    assert Scan(Start, "fake_mai", 0) == LocalAlnum;
    assert Scan(LocalAlnum, ",l_addre", 0) == Reject;
    ScanAppend(Start, "fake_mai", ",l_addre");
    ScanAppend(Start, "fake_mai,l_addre", "ss@ea.it");
    ScanReject("ss@ea.it");
  }

  lemma RejectsLeadingDot()
    ensures !IsValid(Some("fake_mail_address@.pl.net"))
  {
    assert "fake_mail_addres" + "s@.pl.ne" == "fake_mail_address@.pl.ne";
    assert "fake_mail_address@.pl.ne" + "t" == "fake_mail_address@.pl.net";
    FakeMailPrefix();
    assert Scan(LocalAlnum, "s@.pl.ne", 0) == Reject;
    ScanAppend(Start, "fake_mail_addres", "s@.pl.ne");
    ScanAppend(Start, "fake_mail_address@.pl.ne", "t");
    ScanReject("t");
  }

  lemma RejectsTwoAts()
    ensures !IsValid(Some("fake_mail_address@sd@.org"))
  {
    assert "fake_mail_addres" + "s@sd@.or" == "fake_mail_address@sd@.or";
    assert "fake_mail_address@sd@.or" + "g" == "fake_mail_address@sd@.org";
    FakeMailPrefix();
    assert Scan(LocalAlnum, "s@sd@.or", 0) == Reject;
    ScanAppend(Start, "fake_mail_addres", "s@sd@.or");
    ScanAppend(Start, "fake_mail_address@sd@.or", "g");
    ScanReject("g");
  }

  lemma RejectsSymbols()
    ensures !IsValid(Some("!#$%^&**[]@sd.com"))
  {
    assert "!#$%^&**" + "[]@sd.com" == "!#$%^&**[]@sd.com";
    assert Scan(Start, "!#$%^&**", 0) == Reject;
    ScanAppend(Start, "!#$%^&**", "[]@sd.com");
    ScanReject("[]@sd.com");
  }

  lemma RejectsNonAscii()
    ensures !IsValid(Some("óąćżź@sd.com"))
  {
    assert "óąćżź@sd" + ".com" == "óąćżź@sd.com";
    assert Scan(Start, "óąćżź@sd", 0) == Reject;
    ScanAppend(Start, "óąćżź@sd", ".com");
    ScanReject(".com");
  }
}

/** `EmailValidator.IsValid`, an older copy of the same check: the
    pattern is written with the same four pieces. */
module EmailValidator {
  import opened Common
  import opened EmailPattern
  import MailAddressValidator

  /** False for null; otherwise whether the whole string matches. */
  function IsValid(value: Option<string>): (r: bool)
    ensures r <==> value.Some? && Matches(value.value)
  {
    value.Some? && Recognize(value.value)
  }

  /** Both validators accept the same strings. */
  lemma SameAsMailAddressValidator(value: Option<string>)
    ensures IsValid(value) == MailAddressValidator.IsValid(value)
  {
  }
}
