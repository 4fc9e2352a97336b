/** A worked end-to-end case: one laboratory with parseable coordinates and
    one offering. A second row whose latitude is the `NO_COORDS` sentinel
    never reaches the script, because the query filters it out. */
module Scenario {
  import opened Wrappers
  import opened Records
  import ServerFilter
  import ExamDropdown
  import MarkerRender
  import Text

  /** A number parser that knows the two coordinates of the example. */
  function ExampleParse(text: string): Option<Coord> {
    if text == "-23.5" then Some(-23.5)
    else if text == "-46.6" then Some(-46.6)
    else None
  }

  const Hemograma := Offering("Hemograma", 10.0, 20.0)
  const LabA := Supplier("1", "Lab A", "Sao Paulo", "SP", Some("-23.5"), Some("-46.6"), Some([Hemograma]))
  const LabAPoint := Point(-23.5, -46.6)

  /** The generator keeps the row's point. */
  lemma LabABounds()
    ensures ServerFilter.Bounds(ExampleParse, [LabA]) == [LabAPoint]
  {
    assert [LabA][..0] == [];
  }

  /** The dropdown lists the one exam. */
  lemma LabAOptions()
    ensures ExamDropdown.ExamOptions([LabA]) == ["Hemograma"]
  {
    assert [LabA][..0] == [] && [Hemograma][..0] == [];
    assert ExamDropdown.AddOfferings([], [Hemograma]) == ["Hemograma"];
    assert ExamDropdown.CollectNames([LabA]) == ["Hemograma"];
  }

  /** The name check passes for the search text "LAB". */
  lemma LabANameMatches()
    ensures Text.Includes(Text.Lower(LabA.nome), Text.Lower("LAB"))
  {
    assert Text.Lower("LAB") == "lab";
    assert Text.Lower("Lab A") == "lab a";
    assert "lab a"[..3] == "lab";
  }

  /** Searching "LAB" with the exam selected shows the laboratory with its
      offering. */
  lemma LabARender()
    ensures MarkerRender.NoMissingServices(ExampleParse, [LabA], "LAB")
    ensures MarkerRender.Render(ExampleParse, [LabA], "LAB", "Hemograma") == [MarkerRender.Marker(LabA, LabAPoint, [Hemograma])]
  {
    LabANameMatches();
    assert MarkerRender.OfferingsNamed([Hemograma], "Hemograma") == [Hemograma] by {
      assert [Hemograma][..0] == [];
    }
    MarkerRender.RenderStep(ExampleParse, [LabA], "LAB", "Hemograma");
    assert [LabA][..0] == [];
  }

  /** Selecting an exam the laboratory does not offer shows nothing. */
  lemma LabARenderOtherExam()
    ensures MarkerRender.NoMissingServices(ExampleParse, [LabA], "LAB")
    ensures MarkerRender.Render(ExampleParse, [LabA], "LAB", "Raio X") == []
  {
    LabANameMatches();
    assert MarkerRender.OfferingsNamed([Hemograma], "Raio X") == [] by {
      assert [Hemograma][..0] == [];
    }
    MarkerRender.RenderStep(ExampleParse, [LabA], "LAB", "Raio X");
    assert [LabA][..0] == [];
  }
}
