/** The records the scraper handles: the order as the orders API returns it,
    the screen region used for cropping, and the row written per captured order. */
module Types {

  /** One entry of an order's `order_items`. */
  datatype Item = Item(name: string)

  /** `SwiggyOrder`. `orderTime` is the instant `order_time` parses to, as an
      integer timestamp; `deliveryAddress` is `delivery_address.address`. */
  datatype Order = Order(
    orderId: string,
    orderTime: int,
    orderTotal: int,
    restaurantName: string,
    orderItems: seq<Item>,
    deliveryAddress: string)

  /** `CalibrationClip`: a rectangle in page coordinates. */
  datatype Rect = Rect(x: int, y: int, width: int, height: int)

  /** One CSV row: serial, first item's name, order id, date, amount, total, restaurant. */
  datatype OutputRecord = OutputRecord(
    serial: nat,
    items: string,
    orderId: string,
    date: string,
    amount: int,
    total: int,
    restaurant: string)
}
