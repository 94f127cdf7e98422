/** An IERS instance: the Julian Day it was built from, with the Modified
    Julian Day derived from it. */
module Instant {

  /** The Julian Day of MJD 0. */
  const MJD_ZERO: real := 2400000.5

  datatype Iers = Iers(jd: real) {
    /** The `mjd` property. */
    function Mjd(): real {
      jd - MJD_ZERO
    }
  }

  /** `IERS::jd(jd)`. */
  function FromJd(jd: real): (t: Iers)
    ensures t.jd == jd
    ensures t.Mjd() + MJD_ZERO == jd
  {
    Iers(jd)
  }

  /** `IERS::mjd(mjd)`: the instance whose `mjd` property reads back `mjd`. */
  function FromMjd(mjd: real): (t: Iers)
    ensures t.Mjd() == mjd
    ensures t.jd - mjd == MJD_ZERO
  {
    Iers(MJD_ZERO + mjd)
  }

  /** The two constructors are inverse views of one instant. */
  lemma JdMjdRoundTrip(jd: real, mjd: real)
    ensures FromMjd(FromJd(jd).Mjd()) == FromJd(jd)
    ensures FromJd(FromMjd(mjd).jd).Mjd() == mjd
    ensures FromJd(2451545.5).Mjd() == 51545.0
    ensures FromMjd(51545.0).jd == 2451545.5
  {
  }
}
