/**
 * The static registry of canonical form fields: each field's key and its ordered list
 * of aliases, tried first to last when resolving a document.
 */
module Registry {
  datatype Field =
    | ShipperName
    | ShipperAddress
    | RecipientName
    | RecipientAddress
    | PackageWeight
    | PackageDimensions
    | TrackingNumber
    | ShippingDate
    | SpecialInstructions

  /** Registry order, which is also the order of the parser's output. */
  const Fields: seq<Field> := [
    ShipperName, ShipperAddress, RecipientName, RecipientAddress, PackageWeight,
    PackageDimensions, TrackingNumber, ShippingDate, SpecialInstructions
  ]

  /** The fields a valid record must carry, in the order they are reported missing. */
  const Required: seq<Field> := [ShipperName, RecipientName, PackageWeight, ShippingDate]

  /** The field's position in the registry. */
  function Rank(f: Field): (r: nat)
    ensures r < |Fields| && Fields[r] == f
  {
    match f
    case ShipperName => 0
    case ShipperAddress => 1
    case RecipientName => 2
    case RecipientAddress => 3
    case PackageWeight => 4
    case PackageDimensions => 5
    case TrackingNumber => 6
    case ShippingDate => 7
    case SpecialInstructions => 8
  }

  /** Each field sits at its rank in the registry. */
  lemma RanksInOrder()
    ensures forall i :: 0 <= i < |Fields| ==> Rank(Fields[i]) == i
  {
    forall i | 0 <= i < |Fields|
      ensures Rank(Fields[i]) == i
    {
      if i == 0 { assert Rank(Fields[0]) == 0; }
      else if i == 1 { assert Rank(Fields[1]) == 1; }
      else if i == 2 { assert Rank(Fields[2]) == 2; }
      else if i == 3 { assert Rank(Fields[3]) == 3; }
      else if i == 4 { assert Rank(Fields[4]) == 4; }
      else if i == 5 { assert Rank(Fields[5]) == 5; }
      else if i == 6 { assert Rank(Fields[6]) == 6; }
      else if i == 7 { assert Rank(Fields[7]) == 7; }
      else { assert Rank(Fields[8]) == 8; }
    }
  }

  /** The field's key in the parser's output dict. */
  function Name(f: Field): string {
    match f
    case ShipperName => "shipper_name"
    case ShipperAddress => "shipper_address"
    case RecipientName => "recipient_name"
    case RecipientAddress => "recipient_address"
    case PackageWeight => "package_weight"
    case PackageDimensions => "package_dimensions"
    case TrackingNumber => "tracking_number"
    case ShippingDate => "shipping_date"
    case SpecialInstructions => "special_instructions"
  }

  /** The field's aliases in priority order; the field's own key always comes first. */
  function Aliases(f: Field): (r: seq<string>)
    ensures |r| > 0 && r[0] == Name(f)
  {
    match f
    case ShipperName => [
      "shipper_name", "shipper", "sender_name", "sender", "from_name", "from",
      "origin_name", "origin_company", "shipping_company", "company_name"]
    case ShipperAddress => [
      "shipper_address", "shipper_addr", "sender_address", "sender_addr",
      "from_address", "from_addr", "origin_address", "origin_addr", "pickup_address"]
    case RecipientName => [
      "recipient_name", "recipient", "receiver_name", "receiver", "to_name", "to",
      "destination_name", "dest_name", "customer_name", "consignee_name", "consignee"]
    case RecipientAddress => [
      "recipient_address", "recipient_addr", "receiver_address", "receiver_addr",
      "to_address", "to_addr", "destination_address", "dest_address", "delivery_address"]
    case PackageWeight => [
      "package_weight", "weight", "pkg_weight", "total_weight", "gross_weight",
      "shipment_weight", "parcel_weight", "item_weight"]
    case PackageDimensions => [
      "package_dimensions", "dimensions", "pkg_dimensions", "size", "measurements",
      "length_width_height", "lwh", "box_size"]
    case TrackingNumber => [
      "tracking_number", "tracking_no", "tracking_id", "track_number", "reference_number",
      "reference_no", "shipment_id", "order_number", "order_id", "awb_number"]
    case ShippingDate => [
      "shipping_date", "ship_date", "pickup_date", "dispatch_date", "send_date",
      "departure_date", "collection_date", "scheduled_date"]
    case SpecialInstructions => [
      "special_instructions", "instructions", "notes", "comments", "remarks",
      "delivery_instructions", "handling_instructions", "special_notes", "description"]
  }

  /** The registry lists every field exactly once, and the required fields are among
      them. */
  lemma RegistryComplete()
    ensures forall f :: f in Fields
    ensures forall i, j :: 0 <= i < j < |Fields| ==> Fields[i] != Fields[j]
    ensures forall f :: f in Required ==> f in Fields
  {
    forall f: Field
      ensures f in Fields
    {
      match f
      case ShipperName => assert Fields[0] == f;
      case ShipperAddress => assert Fields[1] == f;
      case RecipientName => assert Fields[2] == f;
      case RecipientAddress => assert Fields[3] == f;
      case PackageWeight => assert Fields[4] == f;
      case PackageDimensions => assert Fields[5] == f;
      case TrackingNumber => assert Fields[6] == f;
      case ShippingDate => assert Fields[7] == f;
      case SpecialInstructions => assert Fields[8] == f;
    }
  }

  /** Distinct fields have distinct keys. */
  lemma NamesDistinct(f: Field, g: Field)
    requires f != g
    ensures Name(f) != Name(g)
  {
  }

  /** No field key starts with `_`, the prefix reserved for `_metadata`. */
  lemma NamesArePublic(f: Field)
    ensures |Name(f)| > 0 && Name(f)[0] != '_'
  {
  }
}
