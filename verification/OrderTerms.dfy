/** The terms of an order request: normalisation, storage as a row, and the text of its fingerprint. */
module OrderTerms {
  import opened Wrappers
  import opened Text
  import Trips

  datatype Terms =
    | Shop(itemDescription: Text, quantity: int, maximumBudgetIdr: int, requestedCapacityGrams: int,
           allowSubstitution: bool, variation: Option<Text>)
    | Carry(itemDescription: Text, declaredValueIdr: int, declaredWeightGrams: int, lengthMillimeters: int,
            widthMillimeters: int, heightMillimeters: int, handlingInstructions: Option<Text>)

  datatype TermsError =
    | ItemDescription | Budget | Quantity | Capacity | Variation
    | DeclaredValue | Height | Length | Width | Handling

  function ModeOf(terms: Terms): Trips.ServiceMode {
    if terms.Shop? then Trips.ShopForMe else Trips.CarryMyItem
  }

  function RequestedCapacityGrams(terms: Terms): int {
    if terms.Shop? then terms.requestedCapacityGrams else terms.declaredWeightGrams
  }

  // ---------------------------------------------------------------- normalisation

  predicate NoControl(t: Text) {
    forall u <- t :: u > 31 && u != 127
  }

  predicate TextFits(t: Text, minimum: nat, maximum: nat) {
    minimum <= |Trim(t)| <= maximum && NoControl(Trim(t))
  }

  predicate OptionalFits(t: Option<Text>, maximum: nat) {
    t.None? || TextFits(t.value, 1, maximum)
  }

  function TrimOptional(t: Option<Text>): Option<Text> {
    if t.None? then None else Some(Trim(t.value))
  }

  /** Whole 10-gram steps from 10 grams to 100 tonnes. */
  predicate CapacityFits(grams: int) {
    10 <= grams <= 100_000_000 && grams % 10 == 0
  }

  function Normalize(input: Terms): Result<Terms, TermsError> {
    if !TextFits(input.itemDescription, 3, 500) then Err(ItemDescription)
    else
      var item := Trim(input.itemDescription);
      match input
      case Shop(_, quantity, budget, grams, _, variation) =>
        if !(1 <= budget <= 2_000_000_000) then Err(Budget)
        else if !(1 <= quantity <= 100) then Err(Quantity)
        else if !CapacityFits(grams) then Err(Capacity)
        else if !OptionalFits(variation, 200) then Err(Variation)
        else Ok(input.(itemDescription := item, variation := TrimOptional(variation)))
      case Carry(_, value, grams, length, width, height, handling) =>
        if !(1 <= value <= 2_000_000_000) then Err(DeclaredValue)
        else if !CapacityFits(grams) then Err(Capacity)
        else if !(1 <= height <= 10_000) then Err(Height)
        else if !(1 <= length <= 10_000) then Err(Length)
        else if !(1 <= width <= 10_000) then Err(Width)
        else if !OptionalFits(handling, 500) then Err(Handling)
        else Ok(input.(itemDescription := item, handlingInstructions := TrimOptional(handling)))
  }

  /** Terms that normalisation produces. */
  predicate Normalized(terms: Terms) {
    Normalize(terms) == Ok(terms)
  }

  lemma TrimOnce(t: Text)
    ensures Trim(Trim(t)) == Trim(t)
  {
  }

  lemma OptionalOnce(t: Option<Text>)
    ensures TrimOptional(TrimOptional(t)) == TrimOptional(t)
    ensures forall maximum: nat :: OptionalFits(t, maximum) ==> OptionalFits(TrimOptional(t), maximum)
  {
    if t.Some? {
      TrimOnce(t.value);
    }
  }

  /** Normalising twice is normalising once. */
  lemma NormalizeIdempotent(input: Terms)
    requires Normalize(input).Ok?
    ensures Normalized(Normalize(input).value)
    ensures RequestedCapacityGrams(Normalize(input).value) == RequestedCapacityGrams(input)
  {
    TrimOnce(input.itemDescription);
    OptionalOnce(if input.Shop? then input.variation else input.handlingInstructions);
  }

  /** Printable: no control characters. */
  predicate Printable(t: Text) {
    forall i :: 0 <= i < |t| ==> 32 <= t[i] && t[i] != 127
  }

  predicate Fits(t: Text, minimum: nat, maximum: nat) {
    minimum <= |Trim(t)| <= maximum && Printable(Trim(t))
  }

  /** What terms must meet, in the order in which it is checked. */
  function TermsChecks(input: Terms): seq<(bool, TermsError)> {
    [(Fits(input.itemDescription, 3, 500), ItemDescription)]
    + match input
      case Shop(_, quantity, budget, grams, _, variation) =>
        [(1 <= budget <= 2_000_000_000, Budget), (1 <= quantity <= 100, Quantity),
         (10 <= grams <= 100_000_000 && grams % 10 == 0, Capacity),
         (variation.Some? ==> Fits(variation.value, 1, 200), Variation)]
      case Carry(_, value, grams, length, width, height, handling) =>
        [(1 <= value <= 2_000_000_000, DeclaredValue), (10 <= grams <= 100_000_000 && grams % 10 == 0, Capacity),
         (1 <= height <= 10_000, Height), (1 <= length <= 10_000, Length), (1 <= width <= 10_000, Width),
         (handling.Some? ==> Fits(handling.value, 1, 500), Handling)]
  }

  lemma FitsIff(t: Text, minimum: nat, maximum: nat)
    ensures TextFits(t, minimum, maximum) <==> Fits(t, minimum, maximum)
  {
    var trimmed := Trim(t);
    assert forall i :: 0 <= i < |trimmed| ==> trimmed[i] in trimmed;
  }

  /** Normalisation refuses for the first check that fails; else it trims the texts and keeps everything else. */
  lemma NormalizeIsExact(input: Terms)
    ensures FirstFailing(TermsChecks(input)) == if Normalize(input).Err? then Some(Normalize(input).error) else None
    ensures Normalize(input).Ok? ==>
              var terms := Normalize(input).value;
              && terms.itemDescription == Trim(input.itemDescription)
              && (terms.Shop? <==> input.Shop?)
              && (input.Shop? ==>
                    && terms.quantity == input.quantity && terms.maximumBudgetIdr == input.maximumBudgetIdr
                    && terms.requestedCapacityGrams == input.requestedCapacityGrams
                    && terms.allowSubstitution == input.allowSubstitution
                    && (terms.variation.Some? <==> input.variation.Some?)
                    && (input.variation.Some? ==> terms.variation.value == Trim(input.variation.value)))
              && (input.Carry? ==>
                    && terms.declaredValueIdr == input.declaredValueIdr
                    && terms.declaredWeightGrams == input.declaredWeightGrams
                    && terms.lengthMillimeters == input.lengthMillimeters
                    && terms.widthMillimeters == input.widthMillimeters
                    && terms.heightMillimeters == input.heightMillimeters
                    && (terms.handlingInstructions.Some? <==> input.handlingInstructions.Some?)
                    && (input.handlingInstructions.Some? ==>
                          terms.handlingInstructions.value == Trim(input.handlingInstructions.value)))
  {
    var checks := TermsChecks(input);
    forall k | 0 <= k < |checks| {
      FailingFrom(checks, k);
    }
    assert checks == checks[0..] && checks[|checks|..] == [];
    FitsIff(input.itemDescription, 3, 500);
    if input.Shop? && input.variation.Some? {
      FitsIff(input.variation.value, 1, 200);
    }
    if input.Carry? && input.handlingInstructions.Some? {
      FitsIff(input.handlingInstructions.value, 1, 500);
    }
  }

  // ---------------------------------------------------------------- storage

  /** A submitted request. */
  datatype Request = Request(
    id: Text, tripId: Text, customer: nat, seller: nat, profile: nat, mode: Trips.ServiceMode,
    sourceOfferVersion: int, reservedCapacityGrams: int, submittedAt: int,
    originLabel: Text, destinationLabel: Text, orderOpenAt: int, orderCloseAt: int,
    departureAt: int, estimatedArrivalAt: int, terms: Terms)

  /**
   Its row. The columns hold UTF-8, so a lone surrogate is stored as U+FFFD. Weights are decimals of
   two places, counted here in hundredths of a kilogram.
   */
  datatype Row = Row(
    id: Text, tripId: Text, customer: nat, seller: nat, profile: nat, mode: Trips.ServiceMode,
    sourceOfferVersion: int, reservedCapacity: int, submittedAt: int,
    originLabel: Text, destinationLabel: Text, orderOpenAt: int, orderCloseAt: int,
    departureAt: int, estimatedArrivalAt: int, itemDescription: Text,
    quantity: Option<int>, maximumBudgetIdr: Option<int>, allowSubstitution: Option<bool>, variation: Option<Text>,
    declaredValueIdr: Option<int>, declaredWeight: Option<int>,
    lengthMillimeters: Option<int>, widthMillimeters: Option<int>, heightMillimeters: Option<int>,
    handlingInstructions: Option<Text>)

  /** Grams as hundredths of a kilogram; other amounts are refused. */
  function GramsToDecimal(grams: int): Option<int> {
    if CapacityFits(grams) then Some(grams / 10) else None
  }

  function DecimalToGrams(hundredths: int): int {
    hundredths * 10
  }

  function ScrubOptional(t: Option<Text>): Option<Text> {
    if t.None? then None else Some(Scrub(t.value))
  }

  /** The terms as the columns hold them. */
  function ScrubTerms(terms: Terms): Terms {
    match terms
    case Shop(item, _, _, _, _, variation) =>
      terms.(itemDescription := Scrub(item), variation := ScrubOptional(variation))
    case Carry(item, _, _, _, _, _, handling) =>
      terms.(itemDescription := Scrub(item), handlingInstructions := ScrubOptional(handling))
  }

  /** A request as it comes back from its row. Its other texts were read from UTF-8 columns themselves. */
  function StoredForm(r: Request): Request {
    r.(terms := ScrubTerms(r.terms))
  }

  predicate TextsWellFormed(terms: Terms) {
    WellFormed(terms.itemDescription)
    && match terms
       case Shop(_, _, _, _, _, variation) => variation.None? || WellFormed(variation.value)
       case Carry(_, _, _, _, _, _, handling) => handling.None? || WellFormed(handling.value)
  }

  lemma ScrubTermsKeepsWellFormed(terms: Terms)
    ensures ScrubTerms(terms) == terms <==> TextsWellFormed(terms)
  {
    ScrubKeepsWellFormed(terms.itemDescription);
    if terms.Shop? && terms.variation.Some? {
      ScrubKeepsWellFormed(terms.variation.value);
    }
    if terms.Carry? && terms.handlingInstructions.Some? {
      ScrubKeepsWellFormed(terms.handlingInstructions.value);
    }
  }

  function ToRow(r: Request): Option<Row> {
    var reserved := GramsToDecimal(r.reservedCapacityGrams);
    if reserved.None? then None
    else
      match ScrubTerms(r.terms)
      case Shop(item, quantity, budget, _, substitution, variation) =>
        Some(Row(r.id, r.tripId, r.customer, r.seller, r.profile, r.mode, r.sourceOfferVersion, reserved.value,
                 r.submittedAt, r.originLabel, r.destinationLabel, r.orderOpenAt, r.orderCloseAt, r.departureAt,
                 r.estimatedArrivalAt, item, Some(quantity), Some(budget), Some(substitution), variation,
                 None, None, None, None, None, None))
      case Carry(item, value, grams, length, width, height, handling) =>
        var weight := GramsToDecimal(grams);
        if weight.None? then None
        else
          Some(Row(r.id, r.tripId, r.customer, r.seller, r.profile, r.mode, r.sourceOfferVersion, reserved.value,
                   r.submittedAt, r.originLabel, r.destinationLabel, r.orderOpenAt, r.orderCloseAt, r.departureAt,
                   r.estimatedArrivalAt, item, None, None, None, None,
                   Some(value), weight, Some(length), Some(width), Some(height), handling))
  }

  /** An empty optional text reads back as absent. */
  function ReadOptional(t: Option<Text>): Option<Text> {
    if t.Some? && |t.value| == 0 then None else t
  }

  function ReadTerms(row: Row): Option<Terms> {
    match row.mode
    case ShopForMe =>
      if row.allowSubstitution.None? || row.maximumBudgetIdr.None? || row.quantity.None? then None
      else
        Some(Shop(row.itemDescription, row.quantity.value, row.maximumBudgetIdr.value,
                  DecimalToGrams(row.reservedCapacity), row.allowSubstitution.value, ReadOptional(row.variation)))
    case CarryMyItem =>
      if row.declaredValueIdr.None? || row.declaredWeight.None? || row.heightMillimeters.None?
         || row.lengthMillimeters.None? || row.widthMillimeters.None? then None
      else
        Some(Carry(row.itemDescription, row.declaredValueIdr.value, DecimalToGrams(row.declaredWeight.value),
                   row.lengthMillimeters.value, row.widthMillimeters.value, row.heightMillimeters.value,
                   ReadOptional(row.handlingInstructions)))
  }

  function FromRow(row: Row): Option<Request> {
    var terms := ReadTerms(row);
    if terms.None? then None
    else
      Some(Request(row.id, row.tripId, row.customer, row.seller, row.profile, row.mode, row.sourceOfferVersion,
                   DecimalToGrams(row.reservedCapacity), row.submittedAt, row.originLabel, row.destinationLabel,
                   row.orderOpenAt, row.orderCloseAt, row.departureAt, row.estimatedArrivalAt, terms.value))
  }

  lemma WholeSteps(grams: int)
    requires CapacityFits(grams)
    ensures GramsToDecimal(grams).Some? && DecimalToGrams(GramsToDecimal(grams).value) == grams
  {
  }

  /** Ten grams to a hundred tonnes, in whole steps of ten grams. */
  predicate Storable(grams: int) {
    10 <= grams <= 100_000_000 && grams % 10 == 0
  }

  /**
   A request has a row exactly if its weights can be stored. In its columns weights are counted in
   hundredths of a kilogram, texts are scrubbed, and those of the other mode are empty.
   */
  lemma RowIsExact(r: Request)
    ensures ToRow(r).Some? <==>
              Storable(r.reservedCapacityGrams) && (r.terms.Carry? ==> Storable(r.terms.declaredWeightGrams))
    ensures ToRow(r).Some? ==>
            var (row, terms) := (ToRow(r).value, r.terms);
            && row.id == r.id && row.tripId == r.tripId && row.customer == r.customer && row.seller == r.seller
            && row.profile == r.profile && row.mode == r.mode && row.sourceOfferVersion == r.sourceOfferVersion
            && 10 * row.reservedCapacity == r.reservedCapacityGrams && row.submittedAt == r.submittedAt
            && row.originLabel == r.originLabel && row.destinationLabel == r.destinationLabel
            && row.orderOpenAt == r.orderOpenAt && row.orderCloseAt == r.orderCloseAt
            && row.departureAt == r.departureAt && row.estimatedArrivalAt == r.estimatedArrivalAt
            && row.itemDescription == Scrub(terms.itemDescription)
            && (terms.Shop? ==>
                  && row.quantity == Some(terms.quantity) && row.maximumBudgetIdr == Some(terms.maximumBudgetIdr)
                  && row.allowSubstitution == Some(terms.allowSubstitution)
                  && (row.variation.Some? <==> terms.variation.Some?)
                  && (terms.variation.Some? ==> row.variation.value == Scrub(terms.variation.value))
                  && row.declaredValueIdr == None && row.declaredWeight == None && row.lengthMillimeters == None
                  && row.widthMillimeters == None && row.heightMillimeters == None && row.handlingInstructions == None)
            && (terms.Carry? ==>
                  && row.declaredValueIdr == Some(terms.declaredValueIdr)
                  && row.declaredWeight.Some? && 10 * row.declaredWeight.value == terms.declaredWeightGrams
                  && row.lengthMillimeters == Some(terms.lengthMillimeters)
                  && row.widthMillimeters == Some(terms.widthMillimeters)
                  && row.heightMillimeters == Some(terms.heightMillimeters)
                  && (row.handlingInstructions.Some? <==> terms.handlingInstructions.Some?)
                  && (terms.handlingInstructions.Some? ==>
                        row.handlingInstructions.value == Scrub(terms.handlingInstructions.value))
                  && row.quantity == None && row.maximumBudgetIdr == None && row.allowSubstitution == None
                  && row.variation == None)
  {
  }

  /** An empty text is read as none. */
  predicate ReadAs(read: Option<Text>, column: Option<Text>) {
    if column.Some? && |column.value| > 0 then read == column else read.None?
  }

  /** A row is read exactly if the columns of its mode are filled; weights come back in grams, the rest as it is stored. */
  lemma ReadIsExact(row: Row)
    ensures FromRow(row).Some? <==>
              if row.mode == Trips.ShopForMe
              then row.quantity.Some? && row.maximumBudgetIdr.Some? && row.allowSubstitution.Some?
              else row.declaredValueIdr.Some? && row.declaredWeight.Some? && row.lengthMillimeters.Some?
                   && row.widthMillimeters.Some? && row.heightMillimeters.Some?
    ensures FromRow(row).Some? ==>
              var (r, terms) := (FromRow(row).value, FromRow(row).value.terms);
              && r.id == row.id && r.tripId == row.tripId && r.customer == row.customer && r.seller == row.seller
              && r.profile == row.profile && r.mode == row.mode && r.sourceOfferVersion == row.sourceOfferVersion
              && r.reservedCapacityGrams == 10 * row.reservedCapacity && r.submittedAt == row.submittedAt
              && r.originLabel == row.originLabel && r.destinationLabel == row.destinationLabel
              && r.orderOpenAt == row.orderOpenAt && r.orderCloseAt == row.orderCloseAt
              && r.departureAt == row.departureAt && r.estimatedArrivalAt == row.estimatedArrivalAt
              && terms.itemDescription == row.itemDescription && (terms.Shop? <==> row.mode == Trips.ShopForMe)
              && (terms.Shop? ==>
                    && row.quantity == Some(terms.quantity) && row.maximumBudgetIdr == Some(terms.maximumBudgetIdr)
                    && terms.requestedCapacityGrams == 10 * row.reservedCapacity
                    && row.allowSubstitution == Some(terms.allowSubstitution) && ReadAs(terms.variation, row.variation))
              && (terms.Carry? ==>
                    && row.declaredValueIdr == Some(terms.declaredValueIdr)
                    && terms.declaredWeightGrams == 10 * row.declaredWeight.value
                    && row.lengthMillimeters == Some(terms.lengthMillimeters)
                    && row.widthMillimeters == Some(terms.widthMillimeters)
                    && row.heightMillimeters == Some(terms.heightMillimeters)
                    && ReadAs(terms.handlingInstructions, row.handlingInstructions))
  {
  }

  /**
   A request with normalised terms and a storable reservation reads back in its stored form
   exactly when its mode is that of its terms and a shopping request reserves what it asked
   for, which orders built by the submission always meet; and as itself exactly when besides
   its texts have no lone surrogates.
   */
  lemma StorageRoundTrip(r: Request)
    requires Normalized(r.terms) && CapacityFits(r.reservedCapacityGrams)
    ensures ToRow(r).Some?
    ensures FromRow(ToRow(r).value) == Some(StoredForm(r)) <==> ReservesItsTerms(r)
    ensures FromRow(ToRow(r).value) == Some(r) <==> ReservesItsTerms(r) && TextsWellFormed(r.terms)
  {
    WholeSteps(r.reservedCapacityGrams);
    WholeSteps(RequestedCapacityGrams(r.terms));
    ScrubTermsKeepsWellFormed(r.terms);
  }

  predicate ReservesItsTerms(r: Request) {
    r.mode == ModeOf(r.terms)
    && (r.terms.Shop? ==> r.reservedCapacityGrams == RequestedCapacityGrams(r.terms))
  }

  // ---------------------------------------------------------------- fingerprint

  function ModeName(mode: Trips.ServiceMode): Text {
    if mode == Trips.ShopForMe then Ascii("SHOP_FOR_ME") else Ascii("CARRY_MY_ITEM")
  }

  function BoolText(b: bool): Text {
    if b then Ascii("true") else Ascii("false")
  }

  /** The optional last member and the closing brace of the terms, followed by `rest`. */
  function OptionalMember(opening: Text, t: Option<Text>, rest: Text): Text {
    if t.None? then Ascii("}") + rest else opening + (Quote(t.value) + (Ascii("}") + rest))
  }

  /** The terms in the key order of normalised terms, followed by `rest`. */
  function TermsText(terms: Terms, rest: Text): Text {
    match terms
    case Shop(item, quantity, budget, grams, substitution, variation) =>
      Ascii("{\"allowSubstitution\":") + (BoolText(substitution)
      + (Ascii(",\"itemDescription\":") + (Quote(item)
      + (Ascii(",\"maximumBudgetIdr\":") + (IntText(budget)
      + (Ascii(",\"quantity\":") + (IntText(quantity)
      + (Ascii(",\"requestedCapacityGrams\":") + (IntText(grams)
      + (Ascii(",\"serviceMode\":\"SHOP_FOR_ME\"")
      + OptionalMember(Ascii(",\"variation\":"), variation, rest)))))))))))
    case Carry(item, value, grams, length, width, height, handling) =>
      Ascii("{\"declaredValueIdr\":") + (IntText(value)
      + (Ascii(",\"declaredWeightGrams\":") + (IntText(grams)
      + (Ascii(",\"heightMillimeters\":") + (IntText(height)
      + (Ascii(",\"itemDescription\":") + (Quote(item)
      + (Ascii(",\"lengthMillimeters\":") + (IntText(length)
      + (Ascii(",\"serviceMode\":\"CARRY_MY_ITEM\"")
      + (Ascii(",\"widthMillimeters\":") + (IntText(width)
      + OptionalMember(Ascii(",\"handlingInstructions\":"), handling, rest)))))))))))))
  }

  /** The JSON text that is hashed into a submission fingerprint. */
  function FingerprintText(tripId: Text, terms: Terms): Text {
    Ascii("{\"serviceMode\":") + (Quote(ModeName(ModeOf(terms)))
    + (Ascii(",\"terms\":") + TermsText(terms,
         Ascii(",\"tripId\":") + (Quote(tripId) + Ascii(",\"version\":1}")))))
  }

  lemma CancelToken(token: Text, x: Text, y: Text)
    requires token + x == token + y
    ensures x == y
  {
    StripToken(token, x);
    StripToken(token, y);
  }

  lemma CancelQuote(a: Text, x: Text, b: Text, y: Text)
    requires Quote(a) + x == Quote(b) + y
    ensures a == b && x == y
  {
    ReadQuote(a, x);
    ReadQuote(b, y);
  }

  lemma CancelInt(a: int, x: Text, b: int, y: Text)
    requires IntText(a) + x == IntText(b) + y
    requires Stops(x, IsDigit) && Stops(y, IsDigit)
    ensures a == b && x == y
  {
    ReadIntText(a, x);
    ReadIntText(b, y);
  }

  lemma CancelBool(a: bool, x: Text, b: bool, y: Text)
    requires BoolText(a) + x == BoolText(b) + y
    ensures a == b && x == y
  {
    assert (BoolText(a) + x)[0] == BoolText(a)[0] && (BoolText(b) + y)[0] == BoolText(b)[0];
    assert BoolText(true)[0] == 116 && BoolText(false)[0] == 102;
    CancelToken(BoolText(a), x, y);
  }

  lemma CancelOptional(opening: Text, a: Option<Text>, x: Text, b: Option<Text>, y: Text)
    requires |opening| > 0 && opening[0] == COMMA
    requires OptionalMember(opening, a, x) == OptionalMember(opening, b, y)
    ensures a == b && x == y
  {
    var close := Ascii("}");
    assert close[0] == 125;
    var s, t := OptionalMember(opening, a, x), OptionalMember(opening, b, y);
    assert s[0] == (if a.None? then close[0] else opening[0]);
    assert t[0] == (if b.None? then close[0] else opening[0]);
    if a.None? {
      CancelToken(close, x, y);
    } else {
      CancelToken(opening, Quote(a.value) + (close + x), Quote(b.value) + (close + y));
      CancelQuote(a.value, close + x, b.value, close + y);
      CancelToken(close, x, y);
    }
  }

  /** A member whose value is an integer: the key and all, then the text after it. */
  lemma CancelIntMember(opening: Text, a: int, x: Text, b: int, y: Text)
    requires opening + (IntText(a) + x) == opening + (IntText(b) + y)
    requires Stops(x, IsDigit) && Stops(y, IsDigit)
    ensures a == b && x == y
  {
    CancelToken(opening, IntText(a) + x, IntText(b) + y);
    CancelInt(a, x, b, y);
  }

  lemma CancelTextMember(opening: Text, a: Text, x: Text, b: Text, y: Text)
    requires opening + (Quote(a) + x) == opening + (Quote(b) + y)
    ensures a == b && x == y
  {
    CancelToken(opening, Quote(a) + x, Quote(b) + y);
    CancelQuote(a, x, b, y);
  }

  lemma LiteralStops(literal: Text, rest: Text)
    requires |literal| > 0 && !IsDigit(literal[0])
    ensures Stops(literal + rest, IsDigit)
  {
  }

  lemma OptionalStops(opening: Text, t: Option<Text>, rest: Text)
    requires |opening| > 0 && opening[0] == COMMA
    ensures Stops(OptionalMember(opening, t, rest), IsDigit)
  {
    assert Ascii("}")[0] == 125;
    assert OptionalMember(opening, t, rest)[0] == if t.None? then 125 else COMMA;
  }

  /** The members of shopping terms from the budget on. */
  function ShopTail(t: Terms, rest: Text): Text
    requires t.Shop?
  {
    Ascii(",\"maximumBudgetIdr\":") + (IntText(t.maximumBudgetIdr)
    + (Ascii(",\"quantity\":") + (IntText(t.quantity)
    + (Ascii(",\"requestedCapacityGrams\":") + (IntText(t.requestedCapacityGrams)
    + (Ascii(",\"serviceMode\":\"SHOP_FOR_ME\"")
    + OptionalMember(Ascii(",\"variation\":"), t.variation, rest)))))))
  }

  lemma ShopTailCancel(a: Terms, x: Text, b: Terms, y: Text)
    requires a.Shop? && b.Shop? && ShopTail(a, x) == ShopTail(b, y)
    ensures a.maximumBudgetIdr == b.maximumBudgetIdr && a.quantity == b.quantity
    ensures a.requestedCapacityGrams == b.requestedCapacityGrams && a.variation == b.variation && x == y
  {
    var quantityKey, capacityKey := Ascii(",\"quantity\":"), Ascii(",\"requestedCapacityGrams\":");
    var modeKey, optionalKey := Ascii(",\"serviceMode\":\"SHOP_FOR_ME\""), Ascii(",\"variation\":");
    var o, p := OptionalMember(optionalKey, a.variation, x), OptionalMember(optionalKey, b.variation, y);
    var c := capacityKey + (IntText(a.requestedCapacityGrams) + (modeKey + o));
    var d := capacityKey + (IntText(b.requestedCapacityGrams) + (modeKey + p));
    var q, r := quantityKey + (IntText(a.quantity) + c), quantityKey + (IntText(b.quantity) + d);
    LiteralStops(quantityKey, IntText(a.quantity) + c);
    LiteralStops(quantityKey, IntText(b.quantity) + d);
    CancelIntMember(Ascii(",\"maximumBudgetIdr\":"), a.maximumBudgetIdr, q, b.maximumBudgetIdr, r);
    LiteralStops(capacityKey, IntText(a.requestedCapacityGrams) + (modeKey + o));
    LiteralStops(capacityKey, IntText(b.requestedCapacityGrams) + (modeKey + p));
    CancelIntMember(quantityKey, a.quantity, c, b.quantity, d);
    LiteralStops(modeKey, o);
    LiteralStops(modeKey, p);
    CancelIntMember(capacityKey, a.requestedCapacityGrams, modeKey + o, b.requestedCapacityGrams, modeKey + p);
    CancelToken(modeKey, o, p);
    CancelOptional(optionalKey, a.variation, x, b.variation, y);
  }

  lemma ShopTextCancel(a: Terms, x: Text, b: Terms, y: Text)
    requires a.Shop? && b.Shop? && TermsText(a, x) == TermsText(b, y)
    ensures a == b && x == y
  {
    var head, itemKey := Ascii("{\"allowSubstitution\":"), Ascii(",\"itemDescription\":");
    var c, d := Quote(a.itemDescription) + ShopTail(a, x), Quote(b.itemDescription) + ShopTail(b, y);
    CancelToken(head, BoolText(a.allowSubstitution) + (itemKey + c), BoolText(b.allowSubstitution) + (itemKey + d));
    CancelBool(a.allowSubstitution, itemKey + c, b.allowSubstitution, itemKey + d);
    CancelTextMember(itemKey, a.itemDescription, ShopTail(a, x), b.itemDescription, ShopTail(b, y));
    ShopTailCancel(a, x, b, y);
  }

  /** The members of carrying terms from the item description on. */
  function CarryTail(t: Terms, rest: Text): Text
    requires t.Carry?
  {
    Ascii(",\"itemDescription\":") + (Quote(t.itemDescription)
    + (Ascii(",\"lengthMillimeters\":") + (IntText(t.lengthMillimeters)
    + (Ascii(",\"serviceMode\":\"CARRY_MY_ITEM\"")
    + (Ascii(",\"widthMillimeters\":") + (IntText(t.widthMillimeters)
    + OptionalMember(Ascii(",\"handlingInstructions\":"), t.handlingInstructions, rest)))))))
  }

  lemma CarryTailCancel(a: Terms, x: Text, b: Terms, y: Text)
    requires a.Carry? && b.Carry? && CarryTail(a, x) == CarryTail(b, y)
    ensures a.itemDescription == b.itemDescription && a.lengthMillimeters == b.lengthMillimeters
    ensures a.widthMillimeters == b.widthMillimeters && a.handlingInstructions == b.handlingInstructions && x == y
  {
    var lengthKey, modeKey := Ascii(",\"lengthMillimeters\":"), Ascii(",\"serviceMode\":\"CARRY_MY_ITEM\"");
    var widthKey, optionalKey := Ascii(",\"widthMillimeters\":"), Ascii(",\"handlingInstructions\":");
    var o := OptionalMember(optionalKey, a.handlingInstructions, x);
    var p := OptionalMember(optionalKey, b.handlingInstructions, y);
    var m, n := widthKey + (IntText(a.widthMillimeters) + o), widthKey + (IntText(b.widthMillimeters) + p);
    CancelTextMember(Ascii(",\"itemDescription\":"),
                     a.itemDescription, lengthKey + (IntText(a.lengthMillimeters) + (modeKey + m)),
                     b.itemDescription, lengthKey + (IntText(b.lengthMillimeters) + (modeKey + n)));
    LiteralStops(modeKey, m);
    LiteralStops(modeKey, n);
    CancelIntMember(lengthKey, a.lengthMillimeters, modeKey + m, b.lengthMillimeters, modeKey + n);
    CancelToken(modeKey, m, n);
    OptionalStops(optionalKey, a.handlingInstructions, x);
    OptionalStops(optionalKey, b.handlingInstructions, y);
    CancelIntMember(widthKey, a.widthMillimeters, o, b.widthMillimeters, p);
    CancelOptional(optionalKey, a.handlingInstructions, x, b.handlingInstructions, y);
  }

  lemma CarryTextCancel(a: Terms, x: Text, b: Terms, y: Text)
    requires a.Carry? && b.Carry? && TermsText(a, x) == TermsText(b, y)
    ensures a == b && x == y
  {
    var weightKey, heightKey := Ascii(",\"declaredWeightGrams\":"), Ascii(",\"heightMillimeters\":");
    var t, u := CarryTail(a, x), CarryTail(b, y);
    var e, f := heightKey + (IntText(a.heightMillimeters) + t), heightKey + (IntText(b.heightMillimeters) + u);
    var c := weightKey + (IntText(a.declaredWeightGrams) + e);
    var d := weightKey + (IntText(b.declaredWeightGrams) + f);
    LiteralStops(weightKey, IntText(a.declaredWeightGrams) + e);
    LiteralStops(weightKey, IntText(b.declaredWeightGrams) + f);
    CancelIntMember(Ascii("{\"declaredValueIdr\":"), a.declaredValueIdr, c, b.declaredValueIdr, d);
    LiteralStops(heightKey, IntText(a.heightMillimeters) + t);
    LiteralStops(heightKey, IntText(b.heightMillimeters) + u);
    CancelIntMember(weightKey, a.declaredWeightGrams, e, b.declaredWeightGrams, f);
    CarryStops(a, x);
    CarryStops(b, y);
    CancelIntMember(heightKey, a.heightMillimeters, t, b.heightMillimeters, u);
    CarryTailCancel(a, x, b, y);
  }

  lemma CarryStops(t: Terms, rest: Text)
    requires t.Carry?
    ensures Stops(CarryTail(t, rest), IsDigit)
  {
    var key := Ascii(",\"itemDescription\":");
    assert key[0] == COMMA;
    assert CarryTail(t, rest)[0] == key[0];
  }

  lemma ModeNames()
    ensures ModeName(Trips.ShopForMe) != ModeName(Trips.CarryMyItem)
  {
    assert Ascii("SHOP_FOR_ME")[0] == 83 && Ascii("CARRY_MY_ITEM")[0] == 67;
  }

  /** Two submissions have one fingerprint text exactly when they ask the same of the same trip. */
  lemma FingerprintIff(tripA: Text, a: Terms, tripB: Text, b: Terms)
    ensures FingerprintText(tripA, a) == FingerprintText(tripB, b) <==> tripA == tripB && a == b
  {
    if FingerprintText(tripA, a) == FingerprintText(tripB, b) {
      var key, end := Ascii(",\"tripId\":"), Ascii(",\"version\":1}");
      var x, y := key + (Quote(tripA) + end), key + (Quote(tripB) + end);
      var termsKey := Ascii(",\"terms\":");
      CancelTextMember(Ascii("{\"serviceMode\":"), ModeName(ModeOf(a)), termsKey + TermsText(a, x),
                       ModeName(ModeOf(b)), termsKey + TermsText(b, y));
      CancelToken(termsKey, TermsText(a, x), TermsText(b, y));
      ModeNames();
      if a.Shop? {
        ShopTextCancel(a, x, b, y);
      } else {
        CarryTextCancel(a, x, b, y);
      }
      CancelTextMember(key, tripA, end, tripB, end);
    }
  }
}
