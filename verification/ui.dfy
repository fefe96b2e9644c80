/** Presentation vocabulary the client views share: badge variants, the
    three text colours used for scores and trends, and the badge every
    evaluation list gives the free-text evaluation type. */
module Ui {

  datatype BadgeVariant = Default | Secondary | Outline

  /** `text-green-500`, `text-yellow-500` and `text-red-500`. */
  datatype Colour = Green | Yellow | Red

  /** The type column's badge: "self" is outlined, any other type, including
      "evaluator" and types outside that convention, is secondary. */
  function TypeBadge(kind: string): (v: BadgeVariant)
    ensures v != Default
    ensures v == Outline <==> kind == "self"
  {
    if kind == "self" then Outline else Secondary
  }
}
