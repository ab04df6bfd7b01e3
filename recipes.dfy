/** The recipe service of the recipebook application: a list of recipes that
    refuses ID 0 and duplicate IDs. The mutex is left out: each operation is
    one atomic step. */
module Recipes {
  import opened Wrappers

  /** models.Recipe. */
  datatype Recipe = Recipe(id: int, title: string, ingredients: seq<string>, instructions: string)

  /** The three errors the service returns. */
  datatype RecipeError = ZeroId | DuplicateId | NotFound

  /** The error texts the service reports. */
  function Message(e: RecipeError): string
  {
    match e
    case ZeroId => "recipe ID must be greater than 0"
    case DuplicateId => "recipe with this ID already exists"
    case NotFound => "recipe not found"
  }

  /** Some recipe in `rs` has ID `id`. */
  ghost predicate HasId(rs: seq<Recipe>, id: int)
  {
    exists k :: 0 <= k < |rs| && rs[k].id == id
  }

  /** Stored IDs are non-zero and pairwise distinct. */
  ghost predicate IdsValid(rs: seq<Recipe>)
  {
    (forall k :: 0 <= k < |rs| ==> rs[k].id != 0) &&
    (forall j, k :: 0 <= j < k < |rs| ==> rs[j].id != rs[k].id)
  }

  class RecipeService {
    var recipes: seq<Recipe>

    ghost predicate Valid()
      reads this
    {
      IdsValid(recipes)
    }

    /** NewRecipeService. */
    constructor ()
      ensures Valid() && recipes == []
    {
      recipes := [];
    }

    /** The stored recipes, in insertion order. */
    method GetAllRecipes() returns (all: seq<Recipe>)
      ensures all == recipes
    {
      all := recipes;
    }

    /** Rejects ID 0, then an ID already stored; otherwise appends. Only the
        value 0 is refused: a negative ID passes the check. */
    method CreateRecipe(recipe: Recipe) returns (err: Option<RecipeError>)
      requires Valid()
      modifies this
      ensures Valid()
      ensures err == Some(ZeroId) <==> recipe.id == 0
      ensures err == Some(DuplicateId) <==> recipe.id != 0 && HasId(old(recipes), recipe.id)
      ensures err == None <==> recipe.id != 0 && !HasId(old(recipes), recipe.id)
      ensures err == None ==> recipes == old(recipes) + [recipe]
      ensures err != None ==> recipes == old(recipes)
    {
      if recipe.id == 0 {
        return Some(ZeroId);
      }
      var k := 0;
      while k < |recipes|
        invariant 0 <= k <= |recipes|
        invariant forall j :: 0 <= j < k ==> recipes[j].id != recipe.id
      {
        if recipes[k].id == recipe.id {
          return Some(DuplicateId);
        }
        k := k + 1;
      }
      recipes := recipes + [recipe];
      return None;
    }

    /** The first stored recipe with ID `id` (a copy: the range variable), or
        NotFound when there is none. */
    method GetRecipeByID(id: int) returns (result: Result<Recipe, RecipeError>)
      ensures result.Failure? <==> !HasId(recipes, id)
      ensures result.Failure? ==> result.error == NotFound
      ensures result.Success? ==> exists k :: 0 <= k < |recipes| && recipes[k] == result.value &&
                                    result.value.id == id &&
                                    forall j :: 0 <= j < k ==> recipes[j].id != id
      ensures Valid() ==> forall k :: 0 <= k < |recipes| && recipes[k].id == id ==> result == Success(recipes[k])
    {
      var k := 0;
      while k < |recipes|
        invariant 0 <= k <= |recipes|
        invariant forall j :: 0 <= j < k ==> recipes[j].id != id
      {
        if recipes[k].id == id {
          assert Valid() ==> forall j :: k < j < |recipes| ==> recipes[j].id != id;
          return Success(recipes[k]);
        }
        k := k + 1;
      }
      return Failure(NotFound);
    }
  }

  /** A client run: a created recipe can be read back; ID 0 and a repeated ID
      are refused. */
  method ServiceScenario(r: Recipe)
    requires r.id == 7
  {
    var service := new RecipeService();
    var err := service.CreateRecipe(r);
    assert err == None;
    var found := service.GetRecipeByID(7);
    assert service.recipes == [r] && service.recipes[0].id == 7;
    assert found == Success(r);
    var dup := service.CreateRecipe(r.(title := "other"));
    assert dup == Some(DuplicateId);
    var zero := service.CreateRecipe(r.(id := 0));
    assert zero == Some(ZeroId);
    var all := service.GetAllRecipes();
    assert all == [r];
  }
}
