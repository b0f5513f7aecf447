/**
 * MAJIC to CNIG PCI parcel codes.
 *
 * A MAJIC code has 14 characters, DDCCCSSSSXNNNN (department, commune, a
 * four-character numeric section, a section digit, the parcel number); a CNIG
 * PCI code has 12, department and commune, a three-character section, the
 * parcel number. The conversion keeps MAJIC positions 0-4 and 7-13 and drops
 * positions 5 and 6. It is purely positional: characters are not checked.
 */
module MajicConverter {

  const MajicLength: nat := 14
  const CnigLength: nat := 12

  /** convertToCnigPci: "" for any input that is not 14 characters long. */
  function ConvertToCnigPci(majic: string): (cnig: string)
    ensures |majic| != MajicLength ==> cnig == ""
    ensures |majic| == MajicLength ==> |cnig| == CnigLength
    ensures |majic| == MajicLength ==>
      && cnig[..5] == majic[..5]
      && cnig[5..8] == majic[7..10]
      && cnig[8..] == majic[10..]
  {
    if |majic| != MajicLength then ""
    else majic[0..5] + majic[7..10] + majic[10..14]
  }

  /**
   * An independent inverse: the MAJIC code with the given CNIG code and the
   * two characters `dropped` at positions 5 and 6.
   */
  function Expand(cnig: string, dropped: string): (majic: string)
    requires |cnig| == CnigLength && |dropped| == 2
    ensures |majic| == MajicLength
  {
    cnig[..5] + dropped + cnig[5..]
  }

  /** The result is either a full 12-character code or the empty marker. */
  lemma ResultLength(majic: string)
    ensures |ConvertToCnigPci(majic)| == CnigLength || ConvertToCnigPci(majic) == ""
  {
  }

  /** A code converts to a non-empty result exactly when it has 14 characters. */
  lemma ConvertsIffFourteen(majic: string)
    ensures ConvertToCnigPci(majic) != "" <==> |majic| == MajicLength
  {
  }

  /** Expanding a CNIG code and converting it back gives the CNIG code. */
  lemma {:induction false} ConvertExpand(cnig: string, dropped: string)
    requires |cnig| == CnigLength && |dropped| == 2
    ensures ConvertToCnigPci(Expand(cnig, dropped)) == cnig
  {
    var m := Expand(cnig, dropped);
    var c := ConvertToCnigPci(m);
    assert c[..5] == cnig[..5];
    assert c[5..] == cnig[5..] by {
      assert c[5..] == c[5..8] + c[8..];
      assert cnig[5..] == m[7..];
      assert m[7..] == m[7..10] + m[10..];
    }
    assert c == c[..5] + c[5..];
    assert cnig == cnig[..5] + cnig[5..];
  }

  /** Converting a MAJIC code and putting positions 5 and 6 back gives the code. */
  lemma {:induction false} ExpandConvert(majic: string)
    requires |majic| == MajicLength
    ensures Expand(ConvertToCnigPci(majic), majic[5..7]) == majic
  {
    var c := ConvertToCnigPci(majic);
    assert c[5..] == majic[7..] by {
      assert c[5..] == c[5..8] + c[8..];
      assert majic[7..] == majic[7..10] + majic[10..];
    }
    assert majic == majic[..5] + majic[5..7] + majic[7..];
  }

  /**
   * Two 14-character codes convert alike exactly when they agree outside
   * positions 5 and 6.
   */
  lemma {:induction false} SameConversionIffSameOutsideDropped(a: string, b: string)
    requires |a| == MajicLength && |b| == MajicLength
    ensures ConvertToCnigPci(a) == ConvertToCnigPci(b) <==>
      forall i :: 0 <= i < MajicLength && i != 5 && i != 6 ==> a[i] == b[i]
  {
    var ca, cb := ConvertToCnigPci(a), ConvertToCnigPci(b);
    if ca == cb {
      forall i | 0 <= i < MajicLength && i != 5 && i != 6 ensures a[i] == b[i] {
        if i < 5 {
          assert a[i] == ca[..5][i] == cb[..5][i] == b[i];
        } else if i < 10 {
          assert a[i] == ca[5..8][i - 7] == cb[5..8][i - 7] == b[i];
        } else {
          assert a[i] == ca[8..][i - 10] == cb[8..][i - 10] == b[i];
        }
      }
    }
    if forall i :: 0 <= i < MajicLength && i != 5 && i != 6 ==> a[i] == b[i] {
      assert a[..5] == b[..5];
      assert a[7..10] == b[7..10];
      assert a[10..] == b[10..];
    }
  }

  /**
   * Read as parts, DDCCC + two dropped characters + SSS + NNNN becomes
   * DDCCC + SSS + NNNN.
   */
  lemma {:induction false} ConvertParts(commune: string, dropped: string, section: string, parcel: string)
    requires |commune| == 5 && |dropped| == 2 && |section| == 3 && |parcel| == 4
    ensures ConvertToCnigPci(commune + dropped + section + parcel) == commune + section + parcel
  {
    var m := commune + dropped + section + parcel;
    assert m[0..5] == commune;
    assert m[7..10] == section;
    assert m[10..14] == parcel;
  }

  /** No character check: the all-digit code `12345678901234` converts. */
  lemma DigitsOnlyCodeConverts()
    ensures ConvertToCnigPci("12345678901234") == "123458901234"
  {
    ConvertParts("12345", "67", "890", "1234");
    assert "12345" + "67" + "890" + "1234" == "12345678901234";
    assert "12345" + "890" + "1234" == "123458901234";
  }

  /** The worked example: MAJIC 67482000010017 is CNIG 674820010017. */
  lemma StrasbourgExample()
    ensures ConvertToCnigPci("67482000010017") == "674820010017"
  {
    ConvertParts("67482", "00", "001", "0017");
    assert "67482" + "00" + "001" + "0017" == "67482000010017";
    assert "67482" + "001" + "0017" == "674820010017";
  }

  /** A Paris code: MAJIC 75101000020025 is CNIG 751010020025. */
  lemma ParisExample()
    ensures ConvertToCnigPci("75101000020025") == "751010020025"
  {
    ConvertParts("75101", "00", "002", "0025");
    assert "75101" + "00" + "002" + "0025" == "75101000020025";
    assert "75101" + "002" + "0025" == "751010020025";
  }

  /** Codes of 12, 13 and 15 characters are not converted. */
  lemma WrongLengthsRejected()
    ensures ConvertToCnigPci("123456789012") == ""
    ensures ConvertToCnigPci("1234567890123") == ""
    ensures ConvertToCnigPci("123456789012345") == ""
    ensures ConvertToCnigPci("") == ""
  {
  }
}
