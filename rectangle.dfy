/**
 * `Rectangle`: an object built from a width and a height whose `getArea`
 * multiplies the two.  The source's numbers are modelled as integers.
 */
module Rectangles {

  class Rectangle {
    var width: int
    var height: int

    /** `new Rectangle(width, height)` stores both arguments unchanged. */
    constructor(width: int, height: int)
      ensures this.width == width && this.height == height
    {
      this.width := width;
      this.height := height;
    }

    /** `getArea`: width times height. */
    function GetArea(): (area: int)
      reads this
      ensures area == height * width
    {
      width * height
    }
  }

  /** Building a rectangle and asking for its area yields the product of the sides. */
  method RectangleArea(width: int, height: int) returns (area: int)
    ensures area == width * height
  {
    var r := new Rectangle(width, height);
    area := r.GetArea();
  }

  /** The documented example: a 10 by 20 rectangle has width 10, height 20 and area 200. */
  method ExampleTenByTwenty() returns (r: Rectangle)
    ensures r.width == 10 && r.height == 20 && r.GetArea() == 200
  {
    r := new Rectangle(10, 20);
  }
}
