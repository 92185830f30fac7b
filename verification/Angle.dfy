/** angle_t of Server/Board.h: the direction of a worm in degrees, kept in 16 bits. */
module Angle {
  import opened Bytes
  import opened Wire

  /** operator+= */
  function Right(angle: uint16, operand: uint16): uint16 {
    (angle + operand) % 360
  }

  /** operator-=; the remainder of a negative number is negative, and wraps around in 16 bits. */
  function Left(angle: uint16, operand: uint16): uint16 {
    var t := angle + 360 - operand;
    if t >= 0 then t % 360 else (-(-t % 360)) % 0x1_0000
  }

  lemma LeftRange(angle: uint16, operand: uint16)
    requires angle < 360
    ensures Left(angle, operand) < 360 <==> operand <= angle + 360 || (operand - angle) % 360 == 0
  {
    var t := angle + 360 - operand;
    if t < 0 {
      assert (-t) % 360 == (operand - angle) % 360;
    }
  }

  lemma UndoneUpTo360(angle: uint16, operand: uint16)
    requires angle < 360 && operand <= 360
    ensures Left(Right(angle, operand), operand) == angle
  {}

  /** An angle from which turning right and then left by more than a full circle leads elsewhere. */
  lemma NotUndone(operand: uint16) returns (angle: uint16)
    requires operand > 360
    ensures angle < 360 && Left(Right(angle, operand), operand) != angle
  {
    var k, r := operand / 360, operand % 360;
    Parted(operand, k, r);
    if r == 0 {
      angle := 1;
      Remainder(1 + operand, k, 1);
      Remainder(operand - 361, k - 2, 359);
    } else {
      angle := 360 - r;
      Remainder(angle + operand, k + 1, 0);
      Remainder(operand - 360, k - 1, r);
    }
  }

  lemma Parted(n: nat, k: nat, r: nat)
    requires k == n / 360 && r == n % 360
    ensures n == 360 * k + r && r < 360
  {}

  lemma Remainder(n: nat, k: int, r: nat)
    requires n == 360 * k + r && r < 360
    ensures n % 360 == r
  {}

  /** A left turn undoes a right turn, from every direction, if and only if the turning speed is at most 360. */
  lemma LeftUndoesRightExactly(operand: uint16)
    ensures (forall angle: uint16 :: angle < 360 ==> Left(Right(angle, operand), operand) == angle) <==> operand <= 360
  {
    if operand <= 360 {
      forall angle: uint16 | angle < 360 ensures Left(Right(angle, operand), operand) == angle {
        UndoneUpTo360(angle, operand);
      }
    } else {
      var angle := NotUndone(operand);
    }
  }

  class AngleT {
    var angle: uint16

    constructor (angle: uint16)
      ensures this.angle == angle % 360
    {
      this.angle := angle % 360;
    }

    /** The turning speed has 32 bits, the operand 16. */
    method Add(turningSpeed: uint32)
      modifies this
      ensures angle == Right(old(angle), turningSpeed % 0x1_0000) && angle < 360
    {
      var operand := turningSpeed % 0x1_0000;
      angle := (angle + operand) % 360;
    }

    method Subtract(turningSpeed: uint32)
      modifies this
      ensures angle == Left(old(angle), turningSpeed % 0x1_0000)
    {
      var operand := turningSpeed % 0x1_0000;
      var t := angle + 360 - operand;
      var remainder := if t >= 0 then t % 360 else -(-t % 360);
      angle := remainder % 0x1_0000;
    }

    /** The turn at the beginning of a player's part of a round (Server/Game.cpp:57-60). */
    method Steer(direction: byte, turningSpeed: uint32)
      modifies this
      ensures direction == 1 ==> angle == (old(angle) + turningSpeed % 0x1_0000) % 360
      ensures direction == 2 && turningSpeed <= 360 ==> (angle + turningSpeed) % 360 == old(angle) % 360
      ensures direction != 1 && direction != 2 ==> angle == old(angle)
    {
      if direction == RIGHT {
        Add(turningSpeed);
      } else if direction == LEFT {
        Subtract(turningSpeed);
      }
    }
  }
}
