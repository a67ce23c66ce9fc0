/** A pyramid whose three integer dimensions must all be positive. Every constructor and
    setter stores its argument first and then validates the whole object, throwing
    invalid_argument("negative dimension") when a dimension is not positive. */
module Pyramids {
  import opened Wrappers

  const NegativeDimension: Error := InvalidArgument("negative dimension")

  class Pyramid {
    var length: int
    var width: int
    var height: int

    /** The class invariant that Validate enforces. */
    ghost predicate Valid()
      reads this
    {
      length > 0 && width > 0 && height > 0
    }

    /** The member-initializer part of the constructor, before Validate runs. */
    constructor Init(length: int, width: int, height: int)
      ensures this.length == length && this.width == width && this.height == height
    {
      this.length, this.width, this.height := length, width, height;
    }

    /** The full constructor: initialise the dimensions, then validate. A throwing
        constructor yields no object, so the failure carries none. */
    static method Create(length: int, width: int, height: int) returns (r: Result<Pyramid>)
      ensures r.Success? <==> length > 0 && width > 0 && height > 0
      ensures r.Failure? ==> r.error == NegativeDimension
      ensures r.Success? ==> fresh(r.value) && r.value.Valid()
      ensures r.Success? ==> r.value.Length() == length && r.value.Width() == width && r.value.Height() == height
    {
      var p := new Pyramid.Init(length, width, height);
      var outcome := p.Validate();
      if outcome.Pass? {
        r := Success(p);
      } else {
        r := Failure(outcome.error);
      }
    }

    function Length(): (l: int)
      reads this
      ensures Valid() ==> l > 0
    {
      length
    }

    function Width(): (w: int)
      reads this
      ensures Valid() ==> w > 0
    {
      width
    }

    function Height(): (h: int)
      reads this
      ensures Valid() ==> h > 0
    {
      height
    }

    /** The setters assign first and validate afterwards: a rejected value stays stored. */
    method SetLength(length: int) returns (outcome: Outcome)
      modifies this`length
      ensures this.length == length
      ensures outcome.Pass? <==> Valid()
      ensures outcome.Fail? ==> outcome.error == NegativeDimension
      ensures old(Valid()) ==> (outcome.Pass? <==> length > 0)
    {
      this.length := length;
      outcome := Validate();
    }

    method SetWidth(width: int) returns (outcome: Outcome)
      modifies this`width
      ensures this.width == width
      ensures outcome.Pass? <==> Valid()
      ensures outcome.Fail? ==> outcome.error == NegativeDimension
      ensures old(Valid()) ==> (outcome.Pass? <==> width > 0)
    {
      this.width := width;
      outcome := Validate();
    }

    method SetHeight(height: int) returns (outcome: Outcome)
      modifies this`height
      ensures this.height == height
      ensures outcome.Pass? <==> Valid()
      ensures outcome.Fail? ==> outcome.error == NegativeDimension
      ensures old(Valid()) ==> (outcome.Pass? <==> height > 0)
    {
      this.height := height;
      outcome := Validate();
    }

    /** Length * Width * Height / 3, in exact arithmetic. */
    function Volume(): (v: real)
      reads this
      ensures Valid() ==> v > 0.0
      ensures 3.0 * v == (Length() * Width() * Height()) as real
    {
      (Length() * Width() * Height()) as real / 3.0
    }

    /** Throws unless every dimension is positive; changes nothing. */
    method Validate() returns (outcome: Outcome)
      ensures outcome.Pass? <==> Valid()
      ensures outcome.Fail? ==> outcome.error == NegativeDimension
    {
      if length <= 0 || width <= 0 || height <= 0 {
        outcome := Fail(NegativeDimension);
      } else {
        outcome := Pass;
      }
    }
  }

  /** The test driver: a 4 x 5 x 6 pyramid reports its dimensions and a volume of 40,
      and constructing one with a negative length throws. */
  method PyramidScenario() returns (caught: bool)
    ensures caught
  {
    var r := Pyramid.Create(4, 5, 6);
    var pyramid := r.value;
    assert pyramid.Length() == 4 && pyramid.Width() == 5 && pyramid.Height() == 6;
    assert pyramid.Volume() == 40.0;
    var invalid := Pyramid.Create(-1, 2, 3);
    caught := invalid.Failure?;
  }
}
