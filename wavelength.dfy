/** Conversion between frequency (Hz) and wavelength (m): both directions
    divide the speed of light by the argument. Over exact reals and for a
    non-zero argument; the source's division by zero (an infinity) is not
    part of this model. */
module Wavelength {

  /** The source's `SPEED_OF_LIGHT`, in metres per second. */
  const SpeedOfLight: real := 299792458.0

  /** `frequencyToWavelength`: the wavelength whose product with the frequency is c. */
  function FrequencyToWavelength(frequencyHz: real): (wavelengthM: real)
    requires frequencyHz != 0.0
    ensures wavelengthM * frequencyHz == SpeedOfLight
    ensures wavelengthM != 0.0
    ensures wavelengthM > 0.0 <==> frequencyHz > 0.0
  {
    SpeedOfLight / frequencyHz
  }

  /** `wavelengthToFrequency`: the frequency whose product with the wavelength is c. */
  function WavelengthToFrequency(wavelengthM: real): (frequencyHz: real)
    requires wavelengthM != 0.0
    ensures frequencyHz * wavelengthM == SpeedOfLight
    ensures frequencyHz != 0.0
    ensures frequencyHz > 0.0 <==> wavelengthM > 0.0
  {
    SpeedOfLight / wavelengthM
  }

  /** The relation f * w == c fixes one quantity given the other. */
  lemma ProductDetermines(x: real, y: real, z: real)
    requires x != 0.0 && y * x == SpeedOfLight && z * x == SpeedOfLight
    ensures y == z
  {
    assert (y - z) * x == 0.0;
  }

  /** Converting a wavelength to a frequency and back gives the wavelength. */
  lemma {:induction false} WavelengthRoundTrip(wavelengthM: real)
    requires wavelengthM != 0.0
    ensures FrequencyToWavelength(WavelengthToFrequency(wavelengthM)) == wavelengthM
  {
    var f := WavelengthToFrequency(wavelengthM);
    ProductDetermines(f, FrequencyToWavelength(f), wavelengthM);
  }

  /** Converting a frequency to a wavelength and back gives the frequency. */
  lemma {:induction false} FrequencyRoundTrip(frequencyHz: real)
    requires frequencyHz != 0.0
    ensures WavelengthToFrequency(FrequencyToWavelength(frequencyHz)) == frequencyHz
  {
    var w := FrequencyToWavelength(frequencyHz);
    ProductDetermines(w, WavelengthToFrequency(w), frequencyHz);
  }

  /** Higher positive frequencies have shorter wavelengths. */
  lemma WavelengthDecreasing(f1: real, f2: real)
    requires 0.0 < f1 < f2
    ensures FrequencyToWavelength(f2) < FrequencyToWavelength(f1)
  {
    var w1, w2 := FrequencyToWavelength(f1), FrequencyToWavelength(f2);
    var d, g := w1 - w2, f2 - f1;
    assert w2 > 0.0 && w1 * f1 == w2 * f2;
    assert w2 * g > 0.0;
    assert d * f1 == w2 * g;
    PositiveFactor(d, f1);
  }

  lemma PositiveFactor(x: real, y: real)
    requires y > 0.0 && x * y > 0.0
    ensures x > 0.0
  {
    assert x == (x * y) / y;
  }

  /** A frequency of c hertz has a wavelength of one metre, and back. */
  lemma OneMetre()
    ensures FrequencyToWavelength(SpeedOfLight) == 1.0
    ensures WavelengthToFrequency(1.0) == SpeedOfLight
  {
  }
}
